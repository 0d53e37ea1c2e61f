/** Base-128 varints over bytes: the reader's shift loop, the writer's byte loop and the
    size function, with the arithmetic of 64-bit unsigned values written out. */
module Varint {
  import opened Basics

  type byte = x: int | 0 <= x < 256 witness 0
  type bytes = seq<byte>

  type uint64 = x: int | 0 <= x < 0x1_0000_0000_0000_0000 witness 0
  type uint32 = x: int | 0 <= x < 0x1_0000_0000 witness 0

  /** The errors a decoder reports. */
  datatype Error =
    | IntOverflow
    | UnexpectedEOF
    | InvalidLength
    | UnexpectedEndOfGroup
    | IllegalWireType
    | EndGroupForNonGroup
    | IllegalTag
    | WrongWireType
    | BadDuration

  /** What one read off the front of the input yields: a value and the bytes it took. */
  datatype Read<+T> = Done(value: T, size: nat) | Fail(error: Error)

  /** 2 to the power 7 * k, the weight of byte k of a varint. */
  function Weight(k: nat): (w: nat)
    ensures w >= 1
  {
    if k == 0 then 1 else 128 * Weight(k - 1)
  }

  /** The number that a run of 7-bit groups spells, least significant group first. */
  function Base128(bs: bytes): nat {
    if bs == [] then 0 else bs[0] % 128 + 128 * Base128(bs[1..])
  }

  /** A byte run that ends at its first byte below 0x80, at most ten bytes long. */
  predicate IsVarint(bs: bytes) {
    && 1 <= |bs| <= 10
    && bs[|bs| - 1] < 128
    && forall k :: 0 <= k < |bs| - 1 ==> bs[k] >= 128
  }

  /** How many bytes the varint at the front of `s` has, when `k` bytes came before. */
  function Scan(s: bytes, k: nat): (r: Read<()>)
    ensures r.Done? ==> 1 <= r.size <= |s| && k + r.size <= 10
    decreases |s|
  {
    if 7 * k >= 64 then Fail(IntOverflow)
    else if s == [] then Fail(UnexpectedEOF)
    else if s[0] < 128 then Done((), 1)
    else match Scan(s[1..], k + 1)
      case Done(u, n) => Done(u, n + 1)
      case Fail(e) => Fail(e)
  }

  /** Reading a varint off the front of `s`; bits above 64 are lost, as in a uint64 shift. */
  function ReadVarint(s: bytes): (r: Read<uint64>)
    ensures r.Done? ==> 1 <= r.size <= 10 && r.size <= |s|
  {
    match Scan(s, 0)
    case Fail(e) => Fail(e)
    case Done(_, n) => Done(Base128(s[..n]) % TWO_TO_64, n)
  }

  /** The bytes of the shortest varint for `v`. */
  function EncodeVarint(v: nat): (bs: bytes)
    ensures |bs| >= 1
  {
    if v < 128 then [v] else [v % 128 + 128] + EncodeVarint(v / 128)
  }

  /** Number of bits needed to write `x`. */
  function Len64(x: nat): nat {
    if x == 0 then 0 else 1 + Len64(x / 2)
  }

  /** Bitwise `x | 1`. */
  function OrOne(x: nat): nat {
    if x % 2 == 0 then x + 1 else x
  }

  function Sov(x: nat): nat {
    (Len64(OrOne(x)) + 6) / 7
  }

  // ------------------------------------------------------------------ sizes

  lemma Len64Halves(x: nat)
    requires x >= 128
    ensures Len64(x) == 7 + Len64(x / 128)
  {
    assert x / 2 / 2 == x / 4;
    assert x / 4 / 2 == x / 8;
    assert x / 8 / 2 == x / 16;
    assert x / 16 / 2 == x / 32;
    assert x / 32 / 2 == x / 64;
    assert x / 64 / 2 == x / 128;
    assert Len64(x) == 1 + Len64(x / 2) == 2 + Len64(x / 4) == 3 + Len64(x / 8);
    assert Len64(x / 8) == 1 + Len64(x / 16) == 2 + Len64(x / 32);
    assert Len64(x / 32) == 1 + Len64(x / 64) == 2 + Len64(x / 128);
  }

  lemma Len64OrOne(x: nat)
    ensures Len64(OrOne(x)) == if x == 0 then 1 else Len64(x)
  {
    assert OrOne(x) / 2 == x / 2;
    assert Len64(OrOne(x)) == 1 + Len64(x / 2);
  }

  /** The size function is the length of what the write loop produces. */
  lemma {:induction false} SovIsLength(v: nat)
    ensures Sov(v) == |EncodeVarint(v)|
  {
    Len64OrOne(v);
    if v < 128 {
      Len64Small(v);
    } else {
      SovIsLength(v / 128);
      Len64OrOne(v / 128);
      Len64Halves(v);
    }
  }

  lemma Len64Small(v: nat)
    requires v < 128
    ensures v >= 1 ==> 1 <= Len64(v) <= 7
  {
    assert v / 2 / 2 == v / 4;
    assert v / 4 / 2 == v / 8;
    assert v / 8 / 2 == v / 16;
    assert v / 16 / 2 == v / 32;
    assert v / 32 / 2 == v / 64;
    if v >= 1 {
      assert Len64(v) == 1 + Len64(v / 2);
      assert Len64(v / 64) <= 1 by { assert v / 64 <= 1; }
      assert Len64(v / 16) <= 2 + Len64(v / 64);
      assert Len64(v / 4) <= 2 + Len64(v / 16);
      assert Len64(v / 2) <= 1 + Len64(v / 4);
    }
  }

  /** Anything below 128^n fits in n groups. */
  lemma {:induction false} LengthBound(v: nat, n: nat)
    requires n >= 1 && v < Weight(n)
    ensures |EncodeVarint(v)| <= n
  {
    if v >= 128 {
      assert n >= 2 by { assert Weight(1) == 128 * Weight(0); }
      LengthBound(v / 128, n - 1);
    }
  }

  lemma WeightTen()
    ensures Weight(9) == TWO_TO_63
    ensures Weight(10) == 128 * TWO_TO_63
  {
    assert Weight(1) == 128;
    assert Weight(2) == 0x4000;
    assert Weight(3) == 0x20_0000;
    assert Weight(4) == 0x1000_0000;
    assert Weight(5) == 0x8_0000_0000;
    assert Weight(6) == 0x400_0000_0000;
    assert Weight(7) == 0x2_0000_0000_0000;
    assert Weight(8) == 0x100_0000_0000_0000;
  }

  // ------------------------------------------------------------------ scanning

  /** The scanner finds exactly the runs that are varints. */
  lemma {:induction false} ScanExact(bs: bytes, t: bytes, k: nat)
    requires |bs| >= 1 && k + |bs| <= 10
    requires bs[|bs| - 1] < 128
    requires forall j :: 0 <= j < |bs| - 1 ==> bs[j] >= 128
    ensures Scan(bs + t, k) == Done((), |bs|)
    decreases |bs|
  {
    if |bs| > 1 {
      assert (bs + t)[1..] == bs[1..] + t;
      ScanExact(bs[1..], t, k + 1);
    }
  }

  lemma {:induction false} ScanShape(s: bytes, k: nat)
    requires Scan(s, k).Done?
    ensures var n := Scan(s, k).size;
            s[n - 1] < 128 && forall j :: 0 <= j < n - 1 ==> s[j] >= 128
    decreases |s|
  {
    if s[0] >= 128 {
      ScanShape(s[1..], k + 1);
      var n := Scan(s, k).size;
      forall j | 0 <= j < n - 1 ensures s[j] >= 128 {
        if j > 0 { assert s[j] == s[1..][j - 1]; }
      }
    }
  }

  /** A varint reads back as its own groups, whatever follows it. */
  lemma ReadVarintExact(bs: bytes, t: bytes)
    requires IsVarint(bs)
    ensures ReadVarint(bs + t) == Done(Base128(bs) % TWO_TO_64, |bs|)
  {
    ScanExact(bs, t, 0);
    assert (bs + t)[..|bs|] == bs;
  }

  /** A successful read has a varint in front of it, and depends on nothing behind it. */
  lemma ReadVarintShape(s: bytes)
    requires ReadVarint(s).Done?
    ensures var n := ReadVarint(s).size;
            && IsVarint(s[..n])
            && ReadVarint(s).value == Base128(s[..n]) % TWO_TO_64
  {
    ScanShape(s, 0);
  }

  lemma ReadVarintExtends(s: bytes, t: bytes)
    requires ReadVarint(s).Done?
    ensures ReadVarint(s + t) == ReadVarint(s)
  {
    var n := ReadVarint(s).size;
    ReadVarintShape(s);
    ReadVarintExact(s[..n], s[n..] + t);
    assert s[..n] + (s[n..] + t) == s + t;
  }

  // ------------------------------------------------------------------ round trip

  lemma {:induction false} EncodedShape(v: nat)
    ensures var bs := EncodeVarint(v);
            && Base128(bs) == v
            && bs[|bs| - 1] < 128
            && forall k :: 0 <= k < |bs| - 1 ==> bs[k] >= 128
  {
    if v < 128 {
      assert EncodeVarint(v)[1..] == [];
    } else {
      EncodedShape(v / 128);
      var bs := EncodeVarint(v);
      var tail := EncodeVarint(v / 128);
      assert bs[1..] == tail;
      assert bs[0] % 128 == v % 128;
      forall k | 0 <= k < |bs| - 1 ensures bs[k] >= 128 {
        if k > 0 { assert bs[k] == tail[k - 1]; }
      }
      assert bs[|bs| - 1] == tail[|tail| - 1];
    }
  }

  /** Every 64-bit value takes one to ten bytes, and reads back with nothing left over. */
  lemma VarintRoundTrip(v: uint64, t: bytes)
    ensures 1 <= Sov(v) <= 10
    ensures IsVarint(EncodeVarint(v))
    ensures ReadVarint(EncodeVarint(v) + t) == Done(v, Sov(v))
  {
    hide Len64, Weight, EncodeVarint, Base128, ReadVarint;
    SovIsLength(v);
    WeightTen();
    LengthBound(v, 10);
    EncodedShape(v);
    ReadVarintExact(EncodeVarint(v), t);
  }

  lemma {:induction false} Base128Bound(bs: bytes)
    ensures Base128(bs) < Weight(|bs|)
  {
    if bs != [] {
      Base128Bound(bs[1..]);
    }
  }

  /** The encoding is the shortest: no varint that reads as `v` has fewer bytes. */
  lemma VarintShortest(v: uint64, s: bytes)
    requires ReadVarint(s).Done? && ReadVarint(s).value == v
    ensures Sov(v) <= ReadVarint(s).size
  {
    var n := ReadVarint(s).size;
    var raw := Base128(s[..n]);
    Base128Bound(s[..n]);
    assert v <= raw by {
      assert raw % TWO_TO_64 <= raw;
    }
    LengthBound(v, n);
    SovIsLength(v);
  }

  /** Appending a group adds it at its weight, which is what the read loop's shift does. */
  lemma {:induction false} Base128Append(bs: bytes, b: byte)
    ensures Base128(bs + [b]) == Base128(bs) + b % 128 * Weight(|bs|)
  {
    if bs == [] {
      assert bs + [b] == [b];
      assert [b][1..] == [];
    } else {
      assert (bs + [b])[1..] == bs[1..] + [b];
      Base128Append(bs[1..], b);
      assert 128 * (b % 128 * Weight(|bs| - 1)) == b % 128 * Weight(|bs|);
    }
  }
}
