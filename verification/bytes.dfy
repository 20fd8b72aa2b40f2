/**
 * Byte-level primitives shared by every codec: the little-endian int32 that
 * .NET's BinaryWriter writes, and the length-prefixed byte string it writes
 * for a .NET string (7-bit variable-length length, then the UTF-8 bytes).
 */
module Bytes {
  import opened Wrappers

  type byte = x: int | 0 <= x < 256

  const TwoTo31: int := 0x8000_0000
  const TwoTo32: int := 0x1_0000_0000

  predicate IsInt32(x: int) {
    -TwoTo31 <= x < TwoTo31
  }

  predicate AllInt32(xs: seq<int>) {
    forall i :: 0 <= i < |xs| ==> IsInt32(xs[i])
  }

  /** BinaryWriter.Write(int): four bytes, least significant first, two's complement. */
  function Int32Bytes(x: int): (b: seq<byte>)
    ensures |b| == 4
  {
    var u := x % TwoTo32;
    [u % 256, (u / 256) % 256, (u / 65536) % 256, (u / 16777216) % 256]
  }

  /** The signed value of the first four bytes of `b`. */
  function Int32At(b: seq<byte>): (x: int)
    requires |b| >= 4
    ensures IsInt32(x)
  {
    var u: int := b[0] as int + (b[1] as int) * 256 + (b[2] as int) * 65536 + (b[3] as int) * 16777216;
    if u >= TwoTo31 then u - TwoTo32 else u
  }

  /** BinaryReader.ReadInt32: fails (end of stream) on fewer than four bytes. */
  function ReadInt32(s: seq<byte>): (r: Option<(int, seq<byte>)>)
    ensures r.Some? <==> |s| >= 4
    ensures r.Some? ==> r.value.1 == s[4..]
  {
    if |s| < 4 then None else Some((Int32At(s), s[4..]))
  }

  lemma Int32AtBytes(x: int)
    requires IsInt32(x)
    ensures Int32At(Int32Bytes(x)) == x
  {
    var u := x % TwoTo32;
    assert u == (if x < 0 then x + TwoTo32 else x);
    var b0, q0 := u % 256, u / 256;
    var b1, q1 := q0 % 256, q0 / 256;
    var b2, q2 := q1 % 256, q1 / 256;
    assert q1 == u / 65536;
    assert q2 == u / 16777216;
    assert q2 < 256;
    assert u == b0 + 256 * (b1 + 256 * (b2 + 256 * q2));
  }

  /** An encoded int32 is read back, whatever follows it. */
  lemma ReadInt32Bytes(x: int, rest: seq<byte>)
    requires IsInt32(x)
    ensures ReadInt32(Int32Bytes(x) + rest) == Some((x, rest))
  {
    var s := Int32Bytes(x) + rest;
    assert s[..4] == Int32Bytes(x);
    Int32AtBytes(x);
    assert s[4..] == rest;
  }

  /** Consecutive int32s, as written by a `foreach ... writer.Write(x)` loop. */
  function Int32sBytes(xs: seq<int>): (b: seq<byte>)
    ensures |b| == 4 * |xs|
  {
    if xs == [] then [] else Int32Bytes(xs[0]) + Int32sBytes(xs[1..])
  }

  /** A `for (i = 0; i < count; i++) ReadInt32()` loop: a count of zero or less reads nothing. */
  function ReadInt32s(s: seq<byte>, count: int): (r: Option<(seq<int>, seq<byte>)>)
    ensures r.Some? ==> |r.value.1| <= |s|
    decreases count
  {
    if count <= 0 then Some(([], s))
    else match ReadInt32(s)
      case None => None
      case Some((x, s1)) =>
        match ReadInt32s(s1, count - 1)
        case None => None
        case Some((xs, s2)) => Some(([x] + xs, s2))
  }

  lemma {:induction false} ReadInt32sBytes(xs: seq<int>, rest: seq<byte>)
    requires AllInt32(xs)
    ensures ReadInt32s(Int32sBytes(xs) + rest, |xs|) == Some((xs, rest))
  {
    if xs != [] {
      var tail := Int32sBytes(xs[1..]) + rest;
      assert Int32sBytes(xs) + rest == Int32Bytes(xs[0]) + tail;
      ReadInt32Bytes(xs[0], tail);
      ReadInt32sBytes(xs[1..], rest);
      assert |xs[1..]| == |xs| - 1;
      assert ReadInt32s(Int32sBytes(xs) + rest, |xs|) == Some(([xs[0]] + xs[1..], rest));
      assert [xs[0]] + xs[1..] == xs;
    } else {
      assert Int32sBytes(xs) + rest == rest;
    }
  }

  // ---- 7-bit variable-length integers (BinaryWriter.Write7BitEncodedInt) ----

  function Pow128(k: nat): (p: nat)
    ensures p >= 1
  {
    if k == 0 then 1 else 128 * Pow128(k - 1)
  }

  /** Seven bits per byte, least significant group first, high bit set on every byte but the last. */
  function VarintBytes(n: nat): (b: seq<byte>)
    ensures |b| >= 1
    decreases n
  {
    if n < 128 then [n] else [n % 128 + 128] + VarintBytes(n / 128)
  }

  /**
   * BinaryReader.Read7BitEncodedInt from byte number `k` (0-based) of the
   * number on: at most five bytes are read, and the fifth may carry only the
   * four remaining bits of a 32-bit number; otherwise the read fails.
   */
  function ReadVarintFrom(s: seq<byte>, k: nat): (r: Option<(nat, seq<byte>)>)
    requires k <= 4
    ensures r.Some? ==> |r.value.1| < |s|
    decreases 4 - k
  {
    if |s| == 0 then None
    else if k == 4 then (if s[0] > 15 then None else Some((s[0], s[1..])))
    else if s[0] < 128 then Some((s[0], s[1..]))
    else match ReadVarintFrom(s[1..], k + 1)
      case None => None
      case Some((v, r)) => Some((s[0] - 128 + 128 * v, r))
  }

  lemma {:induction false} ReadVarintFromBytes(n: nat, k: nat, rest: seq<byte>)
    requires k <= 4 && n < 16 * Pow128(4 - k)
    ensures ReadVarintFrom(VarintBytes(n) + rest, k) == Some((n, rest))
    decreases n
  {
    var s := VarintBytes(n) + rest;
    if n < 128 {
      assert s[1..] == rest;
    } else {
      assert k < 4;
      assert n / 128 < 16 * Pow128(4 - (k + 1));
      ReadVarintFromBytes(n / 128, k + 1, rest);
      assert s[1..] == VarintBytes(n / 128) + rest;
    }
  }

  /** A .NET string, modelled by its UTF-8 bytes. */
  type Value = seq<byte>

  predicate IsWritableValue(v: Value) {
    |v| < TwoTo31
  }

  /** BinaryWriter.Write(string): varint byte length, then the bytes. */
  function StringBytes(v: Value): (b: seq<byte>)
    ensures |b| > |v|
  {
    VarintBytes(|v|) + v
  }

  /**
   * BinaryReader.ReadString: the length must decode and be non-negative as an
   * int32, and that many bytes must follow.
   */
  function ReadString(s: seq<byte>): (r: Option<(Value, seq<byte>)>)
    ensures r.Some? ==> |r.value.1| < |s|
  {
    match ReadVarintFrom(s, 0)
    case None => None
    case Some((n, r)) =>
      if n >= TwoTo31 || |r| < n then None else Some((r[..n], r[n..]))
  }

  /** The string codec round trip, the basis of every value round trip below. */
  lemma ReadStringBytes(v: Value, rest: seq<byte>)
    requires IsWritableValue(v)
    ensures ReadString(StringBytes(v) + rest) == Some((v, rest))
  {
    assert Pow128(4) == 268435456;
    ReadVarintFromBytes(|v|, 0, v + rest);
    assert StringBytes(v) + rest == VarintBytes(|v|) + (v + rest);
    assert (v + rest)[..|v|] == v;
    assert (v + rest)[|v|..] == rest;
  }

  function StringsBytes(vs: seq<Value>): seq<byte> {
    if vs == [] then [] else StringBytes(vs[0]) + StringsBytes(vs[1..])
  }

  function ReadStrings(s: seq<byte>, count: int): (r: Option<(seq<Value>, seq<byte>)>)
    ensures r.Some? ==> |r.value.1| <= |s|
    decreases count
  {
    if count <= 0 then Some(([], s))
    else match ReadString(s)
      case None => None
      case Some((v, s1)) =>
        match ReadStrings(s1, count - 1)
        case None => None
        case Some((vs, s2)) => Some(([v] + vs, s2))
  }

  predicate AllWritable(vs: seq<Value>) {
    forall i :: 0 <= i < |vs| ==> IsWritableValue(vs[i])
  }

  lemma {:induction false} ReadStringsBytes(vs: seq<Value>, rest: seq<byte>)
    requires AllWritable(vs)
    ensures ReadStrings(StringsBytes(vs) + rest, |vs|) == Some((vs, rest))
  {
    if vs != [] {
      var tail := StringsBytes(vs[1..]) + rest;
      assert StringsBytes(vs) + rest == StringBytes(vs[0]) + tail;
      ReadStringBytes(vs[0], tail);
      ReadStringsBytes(vs[1..], rest);
      assert |vs[1..]| == |vs| - 1;
      assert ReadStrings(StringsBytes(vs) + rest, |vs|) == Some(([vs[0]] + vs[1..], rest));
      assert [vs[0]] + vs[1..] == vs;
    } else {
      assert StringsBytes(vs) + rest == rest;
    }
  }
}
