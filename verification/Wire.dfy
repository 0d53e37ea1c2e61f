/** Length-delimited reads, the field skipper, and the grammar of the fields it skips. */
module Wire {
  import opened Basics
  import opened Varint

  /** A length prefix; a value with bit 63 set is a negative Go int. */
  function ReadLength(s: bytes): (r: Read<nat>)
    ensures r.Done? ==> 1 <= r.size <= |s| && r.value < TWO_TO_63
  {
    match ReadVarint(s)
    case Fail(e) => Fail(e)
    case Done(v, n) => if v >= TWO_TO_63 then Fail(InvalidLength) else Done(v, n)
  }

  /** A length prefix and that many bytes. */
  function ReadDelimited(s: bytes): (r: Read<bytes>)
    ensures r.Done? ==> 1 <= r.size <= |s|
  {
    match ReadLength(s)
    case Fail(e) => Fail(e)
    case Done(len, n) =>
      if n + len > |s| then Fail(UnexpectedEOF) else Done(s[n..n + len], n + len)
  }

  /** One round of the skipper at nesting `depth`: the depth after it, and the bytes it moves
      over. The move can end beyond the input: the skipper itself does not look. */
  function SkipRound(s: bytes, depth: nat): (r: Read<nat>)
    ensures r.Done? ==> r.size >= 1
  {
    match ReadVarint(s)
    case Fail(e) => Fail(e)
    case Done(wire, n) =>
      match wire % 8
      case 0 => (match ReadVarint(s[n..])
                 case Fail(e) => Fail(e)
                 case Done(_, k) => Done(depth, n + k))
      case 1 => Done(depth, n + 8)
      case 2 => (match ReadLength(s[n..])
                 case Fail(e) => Fail(e)
                 case Done(len, k) => Done(depth, n + k + len))
      case 3 => Done(depth + 1, n)
      case 4 => if depth == 0 then Fail(UnexpectedEndOfGroup) else Done(depth - 1, n)
      case 5 => Done(depth, n + 4)
      case _ => Fail(IllegalWireType)
  }

  /** The skipper: rounds until the depth is back to zero. */
  function SkipFrom(s: bytes, depth: nat): (r: Read<()>)
    ensures r.Done? ==> r.size >= 1
    decreases |s|
  {
    if s == [] then Fail(UnexpectedEOF)
    else match SkipRound(s, depth)
      case Fail(e) => Fail(e)
      case Done(d, n) =>
        if d == 0 then Done((), n)
        else if n > |s| then Fail(UnexpectedEOF)
        else match SkipFrom(s[n..], d)
          case Fail(e) => Fail(e)
          case Done(u, k) => Done(u, n + k)
  }

  // ------------------------------------------------------------------ grammar

  /** A field of any wire type, with the exact bytes of its tags and lengths. */
  datatype Field =
    | VarintField(tag: bytes, number: bytes)
    | Fixed64Field(tag: bytes, payload: bytes)
    | BytesField(tag: bytes, length: bytes, payload: bytes)
    | GroupField(tag: bytes, body: Fields, end: bytes)
    | Fixed32Field(tag: bytes, payload: bytes)
  datatype Fields = Nil | Cons(head: Field, tail: Fields)

  /** A tag of the given wire type. */
  predicate IsTag(tag: bytes, wireType: nat) {
    IsVarint(tag) && Base128(tag) % TWO_TO_64 % 8 == wireType
  }

  predicate WellFormed(f: Field) {
    match f
    case VarintField(tag, number) => IsTag(tag, 0) && IsVarint(number)
    case Fixed64Field(tag, payload) => IsTag(tag, 1) && |payload| == 8
    case BytesField(tag, length, payload) =>
      IsTag(tag, 2) && IsVarint(length) && |payload| < TWO_TO_63
      && Base128(length) % TWO_TO_64 == |payload|
    // The field number of the end tag is not compared with that of the start tag.
    case GroupField(tag, body, end) => IsTag(tag, 3) && AllWellFormed(body) && IsTag(end, 4)
    case Fixed32Field(tag, payload) => IsTag(tag, 5) && |payload| == 4
  }

  predicate AllWellFormed(fs: Fields) {
    fs.Nil? || (WellFormed(fs.head) && AllWellFormed(fs.tail))
  }

  function Encoding(f: Field): bytes {
    match f
    case VarintField(tag, number) => tag + number
    case Fixed64Field(tag, payload) => tag + payload
    case BytesField(tag, length, payload) => tag + length + payload
    case GroupField(tag, body, end) => tag + EncodingAll(body) + end
    case Fixed32Field(tag, payload) => tag + payload
  }

  function EncodingAll(fs: Fields): bytes {
    match fs
    case Nil => []
    case Cons(f, rest) => Encoding(f) + EncodingAll(rest)
  }

  // ------------------------------------------------------------------ skipping is exact

  lemma Concat3(a: bytes, b: bytes, c: bytes)
    ensures a + b + c == a + (b + c)
  {}

  lemma Concat4(a: bytes, b: bytes, c: bytes, d: bytes)
    ensures a + b + c + d == a + (b + (c + d))
  {}

  lemma Glue(s: bytes, m: nat, k: nat)
    requires m + k <= |s|
    ensures s[m..][..k] == s[m..m + k]
    ensures s[..m] + s[m..m + k] == s[..m + k]
    ensures s[m..][k..] == s[m + k..]
  {}

  /** What the skipper does once a whole field of `n` bytes is behind it. */
  function After(n: nat, t: bytes, depth: nat): Read<()> {
    if depth == 0 then Done((), n)
    else match SkipFrom(t, depth)
      case Fail(e) => Fail(e)
      case Done(u, k) => Done(u, n + k)
  }

  /** One round over `head`, all of which lies in the input. */
  lemma RoundThenRest(head: bytes, t: bytes, depth: nat, next: nat)
    requires head != []
    requires SkipRound(head + t, depth) == Done(next, |head|)
    ensures SkipFrom(head + t, depth) == After(|head|, t, next)
  {
    assert (head + t)[|head|..] == t;
  }

  lemma TagRead(tag: bytes, wireType: nat, t: bytes)
    requires IsTag(tag, wireType)
    ensures ReadVarint(tag + t).Done?
    ensures ReadVarint(tag + t).size == |tag|
    ensures ReadVarint(tag + t).value % 8 == wireType
    ensures (tag + t)[|tag|..] == t
  {
    ReadVarintExact(tag, t);
  }

  lemma VarintRound(f: Field, t: bytes, depth: nat)
    requires WellFormed(f) && f.VarintField?
    ensures SkipRound(Encoding(f) + t, depth) == Done(depth, |Encoding(f)|)
  {
    TagRead(f.tag, 0, f.number + t);
    ReadVarintExact(f.number, t);
    Concat3(f.tag, f.number, t);
  }

  lemma BytesRound(f: Field, t: bytes, depth: nat)
    requires WellFormed(f) && f.BytesField?
    ensures SkipRound(Encoding(f) + t, depth) == Done(depth, |Encoding(f)|)
  {
    var rest := f.length + (f.payload + t);
    TagRead(f.tag, 2, rest);
    ReadVarintExact(f.length, f.payload + t);
    Concat4(f.tag, f.length, f.payload, t);
  }

  lemma FixedRound(f: Field, t: bytes, depth: nat)
    requires WellFormed(f) && (f.Fixed64Field? || f.Fixed32Field?)
    ensures SkipRound(Encoding(f) + t, depth) == Done(depth, |Encoding(f)|)
  {
    TagRead(f.tag, if f.Fixed64Field? then 1 else 5, f.payload + t);
    assert f.tag + f.payload + t == f.tag + (f.payload + t);
  }

  lemma TagRound(tag: bytes, wireType: nat, t: bytes, depth: nat)
    requires IsTag(tag, wireType) && (wireType == 3 || (wireType == 4 && depth >= 1))
    ensures SkipRound(tag + t, depth) == Done(if wireType == 3 then depth + 1 else depth - 1, |tag|)
  {
    TagRead(tag, wireType, t);
  }

  lemma {:induction false} SkipField(f: Field, t: bytes, depth: nat)
    requires WellFormed(f)
    ensures SkipFrom(Encoding(f) + t, depth) == After(|Encoding(f)|, t, depth)
    decreases f
  {
    if f.GroupField? {
      SkipGroup(f, t, depth);
    } else {
      if f.VarintField? {
        VarintRound(f, t, depth);
      } else if f.BytesField? {
        BytesRound(f, t, depth);
      } else {
        FixedRound(f, t, depth);
      }
      RoundThenRest(Encoding(f), t, depth, depth);
    }
  }

  lemma {:induction false} SkipGroup(f: Field, t: bytes, depth: nat)
    requires WellFormed(f) && f.GroupField?
    ensures SkipFrom(Encoding(f) + t, depth) == After(|Encoding(f)|, t, depth)
    decreases f, 0
  {
    hide SkipFrom, SkipRound, EncodingAll;
    var inside := EncodingAll(f.body);
    var rest := inside + (f.end + t);
    TagRound(f.tag, 3, rest, depth);
    RoundThenRest(f.tag, rest, depth, depth + 1);
    SkipFields(f.body, f.end + t, depth + 1);
    TagRound(f.end, 4, t, depth + 1);
    RoundThenRest(f.end, t, depth + 1, depth);
    Concat4(f.tag, inside, f.end, t);
  }

  lemma {:induction false} SkipFields(fs: Fields, t: bytes, depth: nat)
    requires AllWellFormed(fs) && depth >= 1
    ensures SkipFrom(EncodingAll(fs) + t, depth) == After(|EncodingAll(fs)|, t, depth)
    decreases fs
  {
    match fs
    case Nil =>
      assert EncodingAll(fs) + t == t;
    case Cons(f, rest) =>
      assert EncodingAll(fs) + t == Encoding(f) + (EncodingAll(rest) + t);
      SkipField(f, EncodingAll(rest) + t, depth);
      SkipFields(rest, t, depth);
  }

  /** Soundness: a well-formed field, however deep its groups, is skipped to its last byte,
      whatever follows. */
  lemma SkipExact(f: Field, t: bytes)
    requires WellFormed(f)
    ensures SkipFrom(Encoding(f) + t, 0) == Done((), |Encoding(f)|)
  {
    SkipField(f, t, 0);
  }

  /** How far each wire type outside groups takes the skipper, whatever the payload. */
  lemma SkipSizes(tag: bytes, v: bytes, t: bytes)
    requires IsVarint(tag) && IsVarint(v)
    ensures IsTag(tag, 0) ==> SkipFrom(tag + (v + t), 0) == Done((), |tag| + |v|)
    ensures IsTag(tag, 1) ==> SkipFrom(tag + t, 0) == Done((), |tag| + 8)
    ensures IsTag(tag, 2) && Base128(v) % TWO_TO_64 < TWO_TO_63 ==>
              SkipFrom(tag + (v + t), 0) == Done((), |tag| + |v| + Base128(v) % TWO_TO_64)
    ensures IsTag(tag, 5) ==> SkipFrom(tag + t, 0) == Done((), |tag| + 4)
  {
    hide ReadVarint, Base128, IsVarint;
    ReadVarintExact(tag, t);
    ReadVarintExact(tag, v + t);
    ReadVarintExact(v, t);
    assert (tag + (v + t))[|tag|..] == v + t;
    assert tag != [] by { TagLength(tag); }
  }

  lemma TagLength(tag: bytes)
    requires IsVarint(tag)
    ensures tag != []
  {}

  // ------------------------------------------------------------------ and complete

  /** A round that leaves the depth alone moved over exactly one scalar field. */
  lemma RoundIsField(s: bytes, depth: nat) returns (f: Field)
    requires var r := SkipRound(s, depth); r.Done? && r.value == depth && r.size <= |s|
    ensures WellFormed(f) && Encoding(f) == s[..SkipRound(s, depth).size]
  {
    var n := ReadVarint(s).size;
    var m := SkipRound(s, depth).size;
    ReadVarintShape(s);
    Glue(s, n, m - n);
    var wireType := ReadVarint(s).value % 8;
    if wireType == 0 {
      ReadVarintShape(s[n..]);
      f := VarintField(s[..n], s[n..m]);
    } else if wireType == 1 {
      f := Fixed64Field(s[..n], s[n..m]);
    } else if wireType == 2 {
      f := RoundIsBytes(s, depth);
    } else {
      f := Fixed32Field(s[..n], s[n..m]);
    }
  }

  lemma RoundIsBytes(s: bytes, depth: nat) returns (f: Field)
    requires var r := SkipRound(s, depth); r.Done? && r.value == depth && r.size <= |s|
    requires ReadVarint(s).value % 8 == 2
    ensures WellFormed(f) && Encoding(f) == s[..SkipRound(s, depth).size]
  {
    hide ReadVarint, Base128, IsVarint;
    var n := ReadVarint(s).size;
    var k := ReadVarint(s[n..]).size;
    var m := SkipRound(s, depth).size;
    ReadVarintShape(s);
    ReadVarintShape(s[n..]);
    Glue(s, n, k);
    Glue(s, n + k, m - n - k);
    f := BytesField(s[..n], s[n..n + k], s[n + k..m]);
    assert WellFormed(f);
    assert Encoding(f) == s[..n] + s[n..n + k] + s[n + k..m];
  }

  /** The tag a group opens or closes with. */
  lemma RoundIsTag(s: bytes, depth: nat)
    requires SkipRound(s, depth).Done? && SkipRound(s, depth).value != depth
    ensures var r := SkipRound(s, depth);
            && r.size <= |s|
            && if r.value == depth + 1 then IsTag(s[..r.size], 3)
               else r.value == depth - 1 && IsTag(s[..r.size], 4)
  {
    ReadVarintShape(s);
  }

  /** `s` starts with fields and an end tag, `n` bytes in all. */
  predicate Closed(s: bytes, fs: Fields, end: bytes, n: nat) {
    && AllWellFormed(fs) && IsTag(end, 4)
    && n <= |s| && EncodingAll(fs) + end == s[..n]
  }

  /** A tag and the closed body behind it make a group. */
  lemma ClosedGroup(s: bytes, n: nat, body: Fields, end: bytes, k: nat) returns (f: Field)
    requires n <= |s| && IsTag(s[..n], 3) && Closed(s[n..], body, end, k)
    ensures WellFormed(f) && n + k <= |s| && Encoding(f) == s[..n + k]
  {
    f := GroupField(s[..n], body, end);
    Glue(s, n, k);
    Concat3(s[..n], EncodingAll(body), end);
  }

  lemma ClosedNil(s: bytes, n: nat)
    requires n <= |s| && IsTag(s[..n], 4)
    ensures Closed(s, Nil, s[..n], n)
  {
    assert EncodingAll(Nil) + s[..n] == s[..n];
  }

  /** A field in front of a closed body belongs to it. */
  lemma ClosedCons(s: bytes, f: Field, m: nat, fs: Fields, end: bytes, k: nat)
    requires m <= |s| && WellFormed(f) && Encoding(f) == s[..m] && Closed(s[m..], fs, end, k)
    ensures Closed(s, Cons(f, fs), end, m + k)
  {
    Glue(s, m, k);
    Concat3(s[..m], EncodingAll(fs), end);
  }

  /** A finished skip begins with a round that stays inside the input. */
  lemma FirstRound(s: bytes, depth: nat)
    requires SkipFrom(s, depth).Done? && SkipFrom(s, depth).size <= |s|
    ensures var r := SkipRound(s, depth);
            && r.Done? && r.size <= |s| && r.value <= depth + 1 && r.value >= depth - 1
            && SkipFrom(s, depth) == After(r.size, s[r.size..], r.value)
  {
    hide SkipRound;
    RoundDepth(s, depth);
  }

  lemma RoundDepth(s: bytes, depth: nat)
    requires SkipRound(s, depth).Done?
    ensures depth - 1 <= SkipRound(s, depth).value <= depth + 1
    ensures ReadVarint(s).Done?
  {
    hide ReadVarint;
  }

  /** Two stretches of one skip, end to end. */
  lemma AfterTwo(s: bytes, depth: nat, next: nat, last: nat, m: nat, k: nat)
    requires next >= 1 && m + k <= |s|
    requires SkipFrom(s, depth) == After(m, s[m..], next)
    requires SkipFrom(s[m..], next) == After(k, s[m..][k..], last)
    ensures SkipFrom(s, depth) == After(m + k, s[m + k..], last)
  {
    hide SkipFrom;
    Glue(s, m, k);
  }

  /** Inside a group, a round that is not an end tag begins a whole field. */
  lemma {:induction false} SkipOne(s: bytes, depth: nat) returns (f: Field, m: nat)
    requires depth >= 1
    requires SkipFrom(s, depth).Done? && SkipFrom(s, depth).size <= |s|
    requires SkipRound(s, depth).Done? && SkipRound(s, depth).value != depth - 1
    ensures WellFormed(f) && 1 <= m <= |s| && Encoding(f) == s[..m]
    ensures SkipFrom(s, depth) == After(m, s[m..], depth)
    decreases |s|, 0
  {
    hide SkipFrom, SkipRound, Encoding, EncodingAll, WellFormed, AllWellFormed, IsTag, ReadVarint;
    FirstRound(s, depth);
    m := SkipRound(s, depth).size;
    if SkipRound(s, depth).value == depth {
      f := RoundIsField(s, depth);
    } else {
      RoundIsTag(s, depth);
      var body, end, k := SkipInside(s[m..], depth + 1);
      f := ClosedGroup(s, m, body, end, k);
      AfterTwo(s, depth, depth + 1, depth, m, k);
      m := m + k;
    }
  }

  /** Inside a group, a finished skip has moved over fields, then an end tag, then the rest. */
  lemma {:induction false} SkipInside(s: bytes, depth: nat) returns (fs: Fields, end: bytes, n: nat)
    requires depth >= 1
    requires SkipFrom(s, depth).Done? && SkipFrom(s, depth).size <= |s|
    ensures Closed(s, fs, end, n)
    ensures SkipFrom(s, depth) == After(n, s[n..], depth - 1)
    decreases |s|, 1
  {
    hide SkipFrom, SkipRound, Encoding, EncodingAll, WellFormed, AllWellFormed, IsTag, ReadVarint;
    FirstRound(s, depth);
    if SkipRound(s, depth).value == depth - 1 {
      RoundIsTag(s, depth);
      n := SkipRound(s, depth).size;
      fs, end := Nil, s[..n];
      ClosedNil(s, n);
    } else {
      var f, m := SkipOne(s, depth);
      fs, end, n := SkipInside(s[m..], depth);
      ClosedCons(s, f, m, fs, end, n);
      AfterTwo(s, depth, depth, depth - 1, m, n);
      fs, n := Cons(f, fs), m + n;
    }
  }

  /** Completeness: whatever the skipper accepts within the input is one well-formed field. */
  lemma SkipComplete(s: bytes) returns (f: Field)
    requires SkipFrom(s, 0).Done? && SkipFrom(s, 0).size <= |s|
    ensures WellFormed(f) && Encoding(f) == s[..SkipFrom(s, 0).size]
  {
    hide SkipFrom, SkipRound, Encoding, EncodingAll, WellFormed, AllWellFormed, IsTag, ReadVarint;
    FirstRound(s, 0);
    var first := SkipRound(s, 0).size;
    if SkipRound(s, 0).value == 0 {
      f := RoundIsField(s, 0);
    } else {
      RoundIsTag(s, 0);
      var body, end, k := SkipInside(s[first..], 1);
      f := ClosedGroup(s, first, body, end, k);
    }
  }

  lemma SkipPrefix(f: Field, s: bytes)
    requires WellFormed(f) && Encoding(f) <= s
    ensures SkipFrom(s, 0) == Done((), |Encoding(f)|)
  {
    var t := s[|Encoding(f)|..];
    assert Encoding(f) + t == s;
    SkipExact(f, t);
  }

  /** The skipper accepts the first `n` bytes of `s` exactly when they are a well-formed field. */
  lemma SkipIffField(s: bytes, n: nat)
    requires n <= |s|
    ensures SkipFrom(s, 0) == Done((), n) <==>
            exists f :: WellFormed(f) && Encoding(f) == s[..n]
  {
    if SkipFrom(s, 0) == Done((), n) {
      var f := SkipComplete(s);
    }
    if f :| WellFormed(f) && Encoding(f) == s[..n] {
      SkipPrefix(f, s);
    }
  }

  /** A finished skip depends on nothing behind it. */
  lemma SkipExtends(s: bytes, t: bytes)
    requires SkipFrom(s, 0).Done? && SkipFrom(s, 0).size <= |s|
    ensures SkipFrom(s + t, 0) == SkipFrom(s, 0)
  {
    hide SkipFrom, Encoding, WellFormed;
    var f := SkipComplete(s);
    assert Encoding(f) <= s + t;
    SkipPrefix(f, s);
    SkipPrefix(f, s + t);
  }

  lemma ReadDelimitedExtends(s: bytes, t: bytes)
    requires ReadDelimited(s).Done?
    ensures ReadDelimited(s + t) == ReadDelimited(s)
  {
    ReadVarintExtends(s, t);
    var r := ReadLength(s);
    assert (s + t)[r.size..r.size + r.value] == s[r.size..r.size + r.value];
  }

  /** A length that reads as that of the payload behind it. */
  lemma LengthThenPayload(length: bytes, payload: bytes, t: bytes)
    requires ReadVarint(length + (payload + t)) == Done(|payload|, |length|) && |payload| < TWO_TO_63
    ensures ReadDelimited(length + payload + t) == Done(payload, |length| + |payload|)
  {
    hide ReadVarint, ReadDelimited;
    Concat3(length, payload, t);
    Middle(length, payload, t);
    LengthThenBytes(length + (payload + t), |payload|, |length|);
  }

  lemma Middle(a: bytes, b: bytes, c: bytes)
    ensures (a + (b + c))[|a|..|a| + |b|] == b
  {}

  lemma LengthThenBytes(s: bytes, len: nat, n: nat)
    requires ReadVarint(s) == Done(len, n) && len < TWO_TO_63 && n + len <= |s|
    ensures ReadDelimited(s) == Done(s[n..n + len], n + len)
  {
    hide ReadVarint;
  }

  /** A length prefix written by the encoder, then the payload. */
  lemma DelimitedRoundTrip(payload: bytes, t: bytes)
    requires |payload| < TWO_TO_63
    ensures ReadDelimited(EncodeVarint(|payload|) + payload + t)
         == Done(payload, Sov(|payload|) + |payload|)
  {
    hide EncodeVarint, Sov, ReadVarint, ReadDelimited, IsVarint;
    SovIsLength(|payload|);
    VarintRoundTrip(|payload|, payload + t);
    LengthThenPayload(EncodeVarint(|payload|), payload, t);
  }
}
