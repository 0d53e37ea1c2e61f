/** Groups whose end tag carries the number of their start tag, as the encoding demands. The skipper
    compares no numbers; this module says exactly when that makes a difference. */
module Groups {
  import opened Basics
  import opened Varint
  import opened Wire

  /** The field number of a tag. */
  function NumberOf(tag: bytes): nat { Base128(tag) % TWO_TO_64 / 8 }

  /** Every group of `f`, at any depth, ends with the number it starts with. */
  predicate Paired(f: Field) {
    f.GroupField? ==> NumberOf(f.end) == NumberOf(f.tag) && AllPaired(f.body)
  }

  predicate AllPaired(fs: Fields) {
    fs.Nil? || (Paired(fs.head) && AllPaired(fs.tail))
  }

  // ------------------------------------------------------------------ a skipper that compares

  /** The numbers of the open groups, innermost first, after a round to depth `d`. */
  function Opened(open: seq<nat>, d: nat, number: nat): seq<nat> {
    if d > |open| then [number] + open
    else if d < |open| then open[1..]
    else open
  }

  /** The skipper with a stack of open groups in place of a depth. */
  function StrictFrom(s: bytes, open: seq<nat>): (r: Read<()>)
    decreases |s|
  {
    if s == [] then Fail(UnexpectedEOF)
    else match SkipRound(s, |open|)
      case Fail(e) => Fail(e)
      case Done(d, n) =>
        var number := ReadVarint(s).value / 8;
        if d < |open| && open[0] != number then Fail(UnexpectedEndOfGroup)
        else
          var open' := Opened(open, d, number);
          if open' == [] then Done((), n)
          else if n > |s| then Fail(UnexpectedEOF)
          else match StrictFrom(s[n..], open')
            case Fail(e) => Fail(e)
            case Done(u, k) => Done(u, n + k)
  }

  /** What the comparing skipper does once a whole field of `n` bytes is behind it. */
  function StrictAfter(n: nat, t: bytes, open: seq<nat>): Read<()> {
    if open == [] then Done((), n)
    else match StrictFrom(t, open)
      case Fail(e) => Fail(e)
      case Done(u, k) => Done(u, n + k)
  }

  /** One round over `head`, all of which lies in the input. */
  lemma StrictRound(head: bytes, t: bytes, open: seq<nat>, next: nat)
    requires head != [] && SkipRound(head + t, |open|) == Done(next, |head|)
    ensures var number := ReadVarint(head + t).value / 8;
            StrictFrom(head + t, open)
            == if next < |open| && open[0] != number then Fail(UnexpectedEndOfGroup)
               else StrictAfter(|head|, t, Opened(open, next, number))
  {
    hide SkipRound, ReadVarint;
    assert (head + t)[|head|..] == t;
  }

  lemma TagNumber(tag: bytes, t: bytes)
    requires IsVarint(tag)
    ensures ReadVarint(tag + t).Done? && ReadVarint(tag + t).value / 8 == NumberOf(tag)
  {
    hide ReadVarint, Base128;
    ReadVarintExact(tag, t);
  }

  /** Scalar fields never touch the stack. */
  lemma StrictScalar(f: Field, t: bytes, open: seq<nat>)
    requires WellFormed(f) && !f.GroupField?
    ensures StrictFrom(Encoding(f) + t, open) == StrictAfter(|Encoding(f)|, t, open)
  {
    hide SkipRound, StrictFrom;
    if f.VarintField? {
      VarintRound(f, t, |open|);
    } else if f.BytesField? {
      BytesRound(f, t, |open|);
    } else {
      FixedRound(f, t, |open|);
    }
    StrictRound(Encoding(f), t, open, |open|);
  }

  lemma {:induction false} StrictField(f: Field, t: bytes, open: seq<nat>)
    requires WellFormed(f)
    ensures StrictFrom(Encoding(f) + t, open)
         == if Paired(f) then StrictAfter(|Encoding(f)|, t, open) else Fail(UnexpectedEndOfGroup)
    decreases f
  {
    hide StrictFrom, Encoding;
    if f.GroupField? {
      StrictGroup(f, t, open);
    } else {
      StrictScalar(f, t, open);
    }
  }

  lemma {:induction false} StrictGroup(f: Field, t: bytes, open: seq<nat>)
    requires WellFormed(f) && f.GroupField?
    ensures StrictFrom(Encoding(f) + t, open)
         == if Paired(f) then StrictAfter(|Encoding(f)|, t, open) else Fail(UnexpectedEndOfGroup)
    decreases f, 0
  {
    hide StrictFrom, SkipRound, EncodingAll, AllPaired, NumberOf, ReadVarint;
    var inside := EncodingAll(f.body);
    var rest := inside + (f.end + t);
    var inner := [NumberOf(f.tag)] + open;
    TagRound(f.tag, 3, rest, |open|);
    TagNumber(f.tag, rest);
    StrictRound(f.tag, rest, open, |open| + 1);
    StrictFields(f.body, f.end + t, inner);
    TagRound(f.end, 4, t, |inner|);
    TagNumber(f.end, t);
    StrictRound(f.end, t, inner, |open|);
    assert inner[1..] == open;
    Concat4(f.tag, inside, f.end, t);
  }

  lemma {:induction false} StrictFields(fs: Fields, t: bytes, open: seq<nat>)
    requires AllWellFormed(fs) && open != []
    ensures StrictFrom(EncodingAll(fs) + t, open)
         == if AllPaired(fs) then StrictAfter(|EncodingAll(fs)|, t, open) else Fail(UnexpectedEndOfGroup)
    decreases fs
  {
    hide StrictFrom, Encoding, Paired;
    match fs
    case Nil =>
      assert EncodingAll(fs) + t == t;
    case Cons(f, rest) =>
      Concat3(Encoding(f), EncodingAll(rest), t);
      StrictField(f, EncodingAll(rest) + t, open);
      StrictFields(rest, t, open);
  }

  /** The comparing skipper accepts a well-formed field exactly when its groups are paired. */
  lemma StrictIffPaired(f: Field, t: bytes)
    requires WellFormed(f)
    ensures StrictFrom(Encoding(f) + t, []) == Done((), |Encoding(f)|) <==> Paired(f)
    ensures !Paired(f) ==> StrictFrom(Encoding(f) + t, []) == Fail(UnexpectedEndOfGroup)
  {
    hide StrictFrom, Encoding, Paired;
    StrictField(f, t, []);
  }

  /** It accepts nothing else. */
  lemma {:induction false} StrictIsSkip(s: bytes, open: seq<nat>)
    requires StrictFrom(s, open).Done?
    ensures SkipFrom(s, |open|) == StrictFrom(s, open)
    decreases |s|
  {
    hide SkipRound, ReadVarint;
    RoundDepth(s, |open|);
    var d, n := SkipRound(s, |open|).value, SkipRound(s, |open|).size;
    var open' := Opened(open, d, ReadVarint(s).value / 8);
    assert |open'| == d;
    if open' != [] {
      StrictIsSkip(s[n..], open');
    }
  }

  // ------------------------------------------------------------------ one parse

  /** Nothing longer or shorter than a varint is read from where it stands. */
  lemma SameVarint(a: bytes, s: bytes, b: bytes, t: bytes)
    requires IsVarint(a) && IsVarint(b) && a + s == b + t
    ensures a == b && s == t
  {
    hide ReadVarint, Base128;
    ReadVarintExact(a, s);
    ReadVarintExact(b, t);
    SameLength(a, s, b, t);
  }

  lemma SameLength(a: bytes, s: bytes, b: bytes, t: bytes)
    requires |a| == |b| && a + s == b + t
    ensures a == b && s == t
  {
    assert a == (a + s)[..|a|] && b == (b + t)[..|b|];
    assert s == (a + s)[|a|..] && t == (b + t)[|b|..];
  }

  function KindOf(f: Field): nat {
    match f
    case VarintField(_, _) => 0
    case Fixed64Field(_, _) => 1
    case BytesField(_, _, _) => 2
    case GroupField(_, _, _) => 3
    case Fixed32Field(_, _) => 5
  }

  /** A field is its tag and the rest. */
  function AfterTag(f: Field): bytes {
    match f
    case VarintField(_, number) => number
    case Fixed64Field(_, payload) => payload
    case BytesField(_, length, payload) => length + payload
    case GroupField(_, body, end) => EncodingAll(body) + end
    case Fixed32Field(_, payload) => payload
  }

  lemma TagFirst(f: Field, s: bytes)
    requires WellFormed(f)
    ensures IsTag(f.tag, KindOf(f))
    ensures Encoding(f) + s == f.tag + (AfterTag(f) + s)
  {
    hide EncodingAll, IsTag;
    Concat3(f.tag, AfterTag(f), s);
    if f.BytesField? {
      Concat3(f.tag, f.length, f.payload);
    } else if f.GroupField? {
      Concat3(f.tag, EncodingAll(f.body), f.end);
    }
  }

  /** The grammar is unambiguous: bytes begin with at most one field. */
  lemma {:induction false} OneParse(f: Field, s: bytes, g: Field, t: bytes)
    requires WellFormed(f) && WellFormed(g) && Encoding(f) + s == Encoding(g) + t
    ensures f == g && s == t
    decreases f
  {
    hide Encoding, EncodingAll;
    TagFirst(f, s);
    TagFirst(g, t);
    SameVarint(f.tag, AfterTag(f) + s, g.tag, AfterTag(g) + t);
    assert KindOf(f) == KindOf(g);
    if f.VarintField? {
      SameVarint(f.number, s, g.number, t);
    } else if f.BytesField? {
      Concat3(f.length, f.payload, s);
      Concat3(g.length, g.payload, t);
      SameVarint(f.length, f.payload + s, g.length, g.payload + t);
      SameLength(f.payload, s, g.payload, t);
    } else if f.GroupField? {
      Concat3(EncodingAll(f.body), f.end, s);
      Concat3(EncodingAll(g.body), g.end, t);
      OneBody(f.body, f.end, s, g.body, g.end, t);
    } else {
      SameLength(f.payload, s, g.payload, t);
    }
  }

  lemma {:induction false} OneBody(fs: Fields, a: bytes, s: bytes, gs: Fields, b: bytes, t: bytes)
    requires AllWellFormed(fs) && AllWellFormed(gs) && IsTag(a, 4) && IsTag(b, 4)
    requires EncodingAll(fs) + (a + s) == EncodingAll(gs) + (b + t)
    ensures fs == gs && a == b && s == t
    decreases fs
  {
    hide Encoding;
    Leading(fs, a, s);
    Leading(gs, b, t);
    if fs.Nil? && gs.Nil? {
      SameVarint(a, s, b, t);
    } else if fs.Nil? {
      TagFirst(gs.head, EncodingAll(gs.tail) + (b + t));
      SameVarint(a, s, gs.head.tag, AfterTag(gs.head) + (EncodingAll(gs.tail) + (b + t)));
    } else if gs.Nil? {
      TagFirst(fs.head, EncodingAll(fs.tail) + (a + s));
      SameVarint(fs.head.tag, AfterTag(fs.head) + (EncodingAll(fs.tail) + (a + s)), b, t);
    } else {
      OneParse(fs.head, EncodingAll(fs.tail) + (a + s), gs.head, EncodingAll(gs.tail) + (b + t));
      OneBody(fs.tail, a, s, gs.tail, b, t);
    }
  }

  lemma Leading(fs: Fields, a: bytes, s: bytes)
    ensures EncodingAll(fs) + (a + s)
         == if fs.Nil? then a + s else Encoding(fs.head) + (EncodingAll(fs.tail) + (a + s))
  {
    hide Encoding;
    if fs.Cons? {
      Concat3(Encoding(fs.head), EncodingAll(fs.tail), a + s);
    }
  }

  // ------------------------------------------------------------------ when the skipper conforms

  /** What the skipper accepts is the encoding of exactly one field, and the comparing skipper
      accepts it too exactly when the groups of that field are paired. */
  lemma SkipConformsIff(s: bytes) returns (f: Field)
    requires SkipFrom(s, 0).Done? && SkipFrom(s, 0).size <= |s|
    ensures WellFormed(f) && Encoding(f) == s[..SkipFrom(s, 0).size]
    ensures forall g :: WellFormed(g) && Encoding(g) <= s ==> g == f
    ensures StrictFrom(s, []) == SkipFrom(s, 0) <==> Paired(f)
    ensures !Paired(f) ==> StrictFrom(s, []) == Fail(UnexpectedEndOfGroup)
  {
    hide SkipFrom, StrictFrom, Encoding, WellFormed, Paired;
    f := SkipComplete(s);
    var t := s[|Encoding(f)|..];
    assert Encoding(f) + t == s;
    SkipPrefix(f, s);
    StrictIffPaired(f, t);
    forall g | WellFormed(g) && Encoding(g) <= s ensures g == f {
      assert Encoding(g) + s[|Encoding(g)|..] == s;
      OneParse(f, t, g, s[|Encoding(g)|..]);
    }
  }

  /** The comparing skipper accepts the first `n` bytes of `s` exactly when they are a well-formed
      field all of whose groups are paired. */
  lemma StrictIffField(s: bytes, n: nat)
    requires n <= |s|
    ensures StrictFrom(s, []) == Done((), n) <==>
            exists f :: WellFormed(f) && Paired(f) && Encoding(f) == s[..n]
  {
    hide SkipFrom, StrictFrom, Encoding, WellFormed, Paired;
    if StrictFrom(s, []) == Done((), n) {
      StrictIsSkip(s, []);
      var f := SkipConformsIff(s);
    }
    if f :| WellFormed(f) && Paired(f) && Encoding(f) == s[..n] {
      assert Encoding(f) + s[n..] == s;
      StrictIffPaired(f, s[n..]);
    }
  }

  /** It does make a difference: group 1 closed by the end tag of group 2. */
  lemma UnpairedAccepted()
    ensures SkipFrom([0x0b, 0x14], 0) == Done((), 2)
    ensures StrictFrom([0x0b, 0x14], []) == Fail(UnexpectedEndOfGroup)
  {
    hide SkipFrom, StrictFrom, Encoding;
    var f := GroupField([0x0b], Nil, [0x14]);
    assert [0x0b][1..] == [] && [0x14][1..] == [];
    assert Base128([0x0b]) == 0x0b && Base128([0x14]) == 0x14;
    assert Encoding(f) + [] == [0x0b, 0x14] by { GroupOfNothing([0x0b], [0x14]); }
    SkipExact(f, []);
    StrictIffPaired(f, []);
  }

  lemma GroupOfNothing(tag: bytes, end: bytes)
    ensures Encoding(GroupField(tag, Nil, end)) == tag + end
  {
    assert tag + [] == tag;
  }
}
