/** Messages as schemas: what the generated marshallers and unmarshallers compute, stated over
    byte sequences, and the laws that hold between them. A message is one value per field;
    field number i + 1 of a schema is at index i. */
module Messages {
  import opened Basics
  import opened Varint
  import opened Wire
  import opened Counting

  /** A Go time.Duration: a signed 64-bit count of nanoseconds. */
  type Duration = x: int | -0x8000_0000_0000_0000 <= x < 0x8000_0000_0000_0000 witness 0

  datatype Result<+T> = Ok(value: T) | Err(error: Error)

  /** The duration payload codec of the protobuf library, taken as a pair of functions. */
  datatype DurationFormat = DurationFormat(encode: Duration -> bytes, decode: bytes -> Option<Duration>)
  {
    /** Decoding undoes encoding. */
    ghost predicate Valid() {
      forall d: Duration :: decode(encode(d)) == Some(d)
    }
  }

  datatype Kind = TextKind | NumberKind | OptionalTimeKind | TimeKind | ArgsKind
  type Schema = seq<Kind>

  datatype Value =
    | Text(text: bytes)
    | Number(number: uint32)
    | OptionalTime(time: Option<Duration>)
    | Time(duration: Duration)
    | Args(args: map<bytes, bytes>)
  type Message = seq<Value>

  predicate HasKind(v: Value, kind: Kind) {
    match kind
    case TextKind => v.Text?
    case NumberKind => v.Number?
    case OptionalTimeKind => v.OptionalTime?
    case TimeKind => v.Time?
    case ArgsKind => v.Args?
  }

  predicate SameKind(v: Value, w: Value) {
    && (v.Text? <==> w.Text?) && (v.Number? <==> w.Number?) && (v.OptionalTime? <==> w.OptionalTime?)
    && (v.Time? <==> w.Time?) && (v.Args? <==> w.Args?)
  }

  predicate SameKinds(m: Message, x: Message) {
    |m| == |x| && forall i :: 0 <= i < |m| ==> SameKind(m[i], x[i])
  }

  /** `m` has a value of the right kind for every field; a field tag fits in one byte. */
  predicate Matches(schema: Schema, m: Message) {
    && |m| == |schema| <= 15
    && forall i :: 0 <= i < |m| ==> HasKind(m[i], schema[i])
  }

  function Default(kind: Kind): (v: Value)
    ensures HasKind(v, kind)
  {
    match kind
    case TextKind => Text([])
    case NumberKind => Number(0)
    case OptionalTimeKind => OptionalTime(None)
    case TimeKind => Time(0)
    case ArgsKind => Args(map[])
  }

  /** The message all of whose fields are unset. */
  function Empty(schema: Schema): (m: Message)
    requires |schema| <= 15
    ensures Matches(schema, m)
  {
    seq(|schema|, i requires 0 <= i < |schema| => Default(schema[i]))
  }

  // ------------------------------------------------------------------ decoding

  /** The low 32 bits of `x`, as a signed number. */
  function Int32(x: nat): int {
    var low := x % TWO_TO_32;
    if low < TWO_TO_31 then low else low - TWO_TO_32
  }

  function FieldNumber(wire: uint64): int { Int32(wire / 8) }
  function WireType(wire: uint64): nat { wire % 8 }

  /** A value behind `n` bytes of tag. */
  function Behind<T>(n: nat, r: Read<T>): Read<T> {
    match r
    case Fail(e) => Fail(e)
    case Done(v, k) => Done(v, n + k)
  }

  function ReadText(s: bytes, wireType: nat): Read<bytes> {
    if wireType != 2 then Fail(WrongWireType) else ReadDelimited(s)
  }

  /** A uint32 field keeps the low 32 bits of its varint. */
  function ReadNumber(s: bytes, wireType: nat): Read<uint32> {
    if wireType != 0 then Fail(WrongWireType)
    else match ReadVarint(s)
      case Fail(e) => Fail(e)
      case Done(v, n) => Done(v % TWO_TO_32, n)
  }

  function ReadTime(f: DurationFormat, s: bytes, wireType: nat): Read<Duration> {
    match ReadText(s, wireType)
    case Fail(e) => Fail(e)
    case Done(payload, n) =>
      match f.decode(payload)
      case None => Fail(BadDuration)
      case Some(d) => Done(d, n)
  }

  /** The loop over one map entry that ends `remaining` bytes ahead. Key and value lengths are
      checked against the whole input `s`, not against the end of the entry. */
  function ReadEntryFields(s: bytes, remaining: int, key: bytes, value: bytes): Result<(bytes, bytes)>
    requires remaining <= |s|
    decreases |s|
  {
    if remaining <= 0 then Ok((key, value))
    else match ReadVarint(s)
      case Fail(e) => Err(e)
      case Done(wire, n) =>
        if FieldNumber(wire) == 1 || FieldNumber(wire) == 2 then
          match ReadDelimited(s[n..])
          case Fail(e) => Err(e)
          case Done(text, k) =>
            if FieldNumber(wire) == 1
            then ReadEntryFields(s[n + k..], remaining - n - k, text, value)
            else ReadEntryFields(s[n + k..], remaining - n - k, key, text)
        else
          match SkipFrom(s, 0)
          case Fail(e) => Err(e)
          case Done(_, k) =>
            if k > remaining then Err(UnexpectedEOF)
            else ReadEntryFields(s[k..], remaining - k, key, value)
  }

  /** One map entry: the cursor ends at the end of the entry, wherever the loop had left it. */
  function ReadEntry(s: bytes, wireType: nat): (r: Read<(bytes, bytes)>)
    ensures r.Done? ==> 1 <= r.size <= |s|
  {
    if wireType != 2 then Fail(WrongWireType)
    else match ReadLength(s)
      case Fail(e) => Fail(e)
      case Done(len, n) =>
        if n + len > |s| then Fail(UnexpectedEOF)
        else match ReadEntryFields(s[n..], len, [], [])
          case Err(e) => Fail(e)
          case Ok(entry) => Done(entry, n + len)
  }

  /** One known field's value, given the value it had. */
  function ReadValue(f: DurationFormat, current: Value, s: bytes, wireType: nat): (r: Read<Value>)
    ensures r.Done? ==> 1 <= r.size <= |s| && SameKind(current, r.value)
  {
    match current
    case Text(_) => (match ReadText(s, wireType)
                     case Fail(e) => Fail(e)
                     case Done(v, n) => Done(Text(v), n))
    case Number(_) => (match ReadNumber(s, wireType)
                       case Fail(e) => Fail(e)
                       case Done(v, n) => Done(Number(v), n))
    case OptionalTime(_) => (match ReadTime(f, s, wireType)
                             case Fail(e) => Fail(e)
                             case Done(v, n) => Done(OptionalTime(Some(v)), n))
    case Time(_) => (match ReadTime(f, s, wireType)
                     case Fail(e) => Fail(e)
                     case Done(v, n) => Done(Time(v), n))
    case Args(args) => (match ReadEntry(s, wireType)
                        case Fail(e) => Fail(e)
                        case Done(v, n) => Done(Args(args[v.0 := v.1]), n))
  }

  /** An unknown field is skipped, tag included. */
  function ReadUnknown(s: bytes): (r: Read<()>)
    ensures r.Done? ==> 1 <= r.size <= |s|
  {
    match SkipFrom(s, 0)
    case Fail(e) => Fail(e)
    case Done(u, n) => if n > |s| then Fail(UnexpectedEOF) else Done(u, n)
  }

  /** A tag that may start a field: its field number and wire type. */
  function ReadTag(s: bytes): (r: Read<(nat, nat)>)
    ensures r.Done? ==> 1 <= r.size <= |s| && r.value.0 >= 1
  {
    match ReadVarint(s)
    case Fail(e) => Fail(e)
    case Done(wire, n) =>
      if WireType(wire) == 4 then Fail(EndGroupForNonGroup)
      else if FieldNumber(wire) <= 0 then Fail(IllegalTag)
      else Done((FieldNumber(wire), WireType(wire)), n)
  }

  /** One round of the unmarshalling loop. */
  function ReadField(f: DurationFormat, s: bytes, m: Message): (r: Read<Message>)
    ensures r.Done? ==> 1 <= r.size <= |s| && SameKinds(m, r.value)
  {
    match ReadTag(s)
    case Fail(e) => Fail(e)
    case Done((number, wireType), n) =>
      if number <= |m| then
        match Behind(n, ReadValue(f, m[number - 1], s[n..], wireType))
        case Fail(e) => Fail(e)
        case Done(v, k) => Done(m[number - 1 := v], k)
      else
        match ReadUnknown(s)
        case Fail(e) => Fail(e)
        case Done(_, k) => Done(m, k)
  }

  /** Unmarshalling `s` on top of `m`. It is total: every byte string has a result. */
  function Decode(f: DurationFormat, s: bytes, m: Message): (r: Result<Message>)
    ensures r.Ok? ==> SameKinds(m, r.value)
    decreases |s|
  {
    if s == [] then Ok(m)
    else match ReadField(f, s, m)
      case Fail(e) => Err(e)
      case Done(m', n) => Decode(f, s[n..], m')
  }

  // ------------------------------------------------------------------ what a failure leaves behind

  /** The bytes a varint loop has looked at when it gives up. */
  function Seen(s: bytes): bytes {
    if |s| < 10 then s else s[..10]
  }

  /** A number field is zeroed and then filled while its varint is read. */
  function NumberLeft(current: uint32, s: bytes, wireType: nat): uint32 {
    if wireType != 0 then current else Base128(Seen(s)) % TWO_TO_32
  }

  /** What is in a field when reading its value has failed: a missing duration is made before its
      payload is decoded. */
  function ValueLeft(current: Value, s: bytes, wireType: nat): (v: Value)
    ensures SameKind(current, v)
  {
    match current
    case Number(n) => Number(NumberLeft(n, s, wireType))
    case OptionalTime(None) => if ReadText(s, wireType).Done? then OptionalTime(Some(0)) else current
    case _ => current
  }

  /** The message when a round of the loop has failed. */
  function FieldLeft(s: bytes, m: Message): (r: Message)
    ensures SameKinds(m, r)
  {
    match ReadTag(s)
    case Fail(_) => m
    case Done((number, wireType), n) =>
      if number <= |m| then m[number - 1 := ValueLeft(m[number - 1], s[n..], wireType)] else m
  }

  /** The message when the unmarshalling loop has ended, one way or the other. */
  function DecodeLeft(f: DurationFormat, s: bytes, m: Message): (r: Message)
    ensures SameKinds(m, r)
    decreases |s|
  {
    if s == [] then m
    else match ReadField(f, s, m)
      case Fail(_) => FieldLeft(s, m)
      case Done(m', n) => DecodeLeft(f, s[n..], m')
  }

  // ------------------------------------------------------------------ encoding

  function Delimited(payload: bytes): bytes {
    EncodeVarint(|payload|) + payload
  }

  /** Key and value of a map entry, as fields 1 and 2. */
  function EntryBody(key: bytes, value: bytes): bytes {
    [0x0a] + Delimited(key) + ([0x12] + Delimited(value))
  }

  function Tag(number: nat, wireType: nat): byte
    requires number <= 15 && wireType < 8
  {
    number * 8 + wireType
  }

  function Tagged(number: nat, payload: bytes): bytes
    requires number <= 15
  {
    [Tag(number, 2)] + Delimited(payload)
  }

  function EncodeEntries(number: nat, args: map<bytes, bytes>, order: seq<bytes>): bytes
    requires number <= 15 && forall k :: k in order ==> k in args
  {
    if order == [] then []
    else Tagged(number, EntryBody(order[0], args[order[0]])) + EncodeEntries(number, args, order[1..])
  }

  /** The bytes of one field; unset fields take none. */
  ghost function EncodeValue(f: DurationFormat, number: nat, v: Value, order: seq<bytes>): bytes
    requires number <= 15
    requires v.Args? ==> IsOrder(order, v.args)
  {
    match v
    case Text(text) => if text == [] then [] else Tagged(number, text)
    case Number(n) => if n == 0 then [] else [Tag(number, 0)] + EncodeVarint(n)
    case OptionalTime(time) => if time.None? then [] else Tagged(number, f.encode(time.value))
    case Time(d) => Tagged(number, f.encode(d))
    case Args(args) => EncodeEntries(number, args, order)
  }

  /** `order` walks every map of the message. */
  ghost predicate Walks(order: seq<bytes>, m: Message) {
    forall i :: 0 <= i < |m| && m[i].Args? ==> IsOrder(order, m[i].args)
  }

  /** The bytes of the fields from index `i` on. */
  ghost function EncodeFrom(f: DurationFormat, m: Message, order: seq<bytes>, i: nat): bytes
    requires i <= |m| <= 15 && Walks(order, m)
    decreases |m| - i
  {
    if i == |m| then []
    else EncodeValue(f, i + 1, m[i], order) + EncodeFrom(f, m, order, i + 1)
  }

  ghost function Encode(f: DurationFormat, m: Message, order: seq<bytes>): bytes
    requires |m| <= 15 && Walks(order, m)
  {
    EncodeFrom(f, m, order, 0)
  }
}
