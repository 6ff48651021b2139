/** Machine integers as the C# code sees them, and big-endian values defined
    directly on byte sequences. Nothing here depends on a library: these are
    the reference definitions the marshalling functions are proved against. */
module Twos {

  /** A .NET `byte`. */
  type byte = x: int | 0 <= x < 0x100

  /** A .NET `int` (32-bit two's complement). */
  type int32 = x: int | -0x8000_0000 <= x < 0x8000_0000

  const MinInt32: int32 := -0x8000_0000
  const MaxInt32: int32 := 0x7FFF_FFFF

  /** 256 to the power `n`: the number of values an `n`-byte sequence can hold. */
  function Pow256(n: nat): (r: nat)
    ensures r > 0
  {
    if n == 0 then 1 else 0x100 * Pow256(n - 1)
  }

  /** The unsigned value of `bs` read most significant byte first. */
  function BigEndianValue(bs: seq<byte>): (r: nat)
    ensures r < Pow256(|bs|)
  {
    if bs == [] then 0
    else
      var init := BigEndianValue(bs[..|bs| - 1]);
      assert init * 0x100 + bs[|bs| - 1] < 0x100 * Pow256(|bs| - 1) by {
        assert init <= Pow256(|bs| - 1) - 1;
        assert init * 0x100 <= (Pow256(|bs| - 1) - 1) * 0x100;
      }
      init * 0x100 + bs[|bs| - 1]
  }

  /** The signed 16-bit number whose two's-complement bit pattern is `u`. */
  function Signed16(u: int): (r: int)
    requires 0 <= u < 0x1_0000
    ensures -0x8000 <= r < 0x8000
    ensures (r - u) % 0x1_0000 == 0
  {
    if u < 0x8000 then u else u - 0x1_0000
  }

  /** The signed 32-bit number whose two's-complement bit pattern is `u`. */
  function Signed32(u: int): (r: int32)
    requires 0 <= u < 0x1_0000_0000
    ensures (r - u) % 0x1_0000_0000 == 0
  {
    if u < 0x8000_0000 then u else u - 0x1_0000_0000
  }

  /** The 32-bit two's-complement bit pattern of `v`, as an unsigned number. */
  function Unsigned32(v: int32): (r: nat)
    ensures r < 0x1_0000_0000
    ensures Signed32(r) == v
    ensures (r - v) % 0x1_0000_0000 == 0
  {
    if v < 0 then v + 0x1_0000_0000 else v
  }

  /** `x += 1` on a C# `int` in the default unchecked context: it wraps from
      the largest value to the smallest. */
  function Inc32(x: int32): (r: int32)
    ensures (r - (x + 1)) % 0x1_0000_0000 == 0
    ensures x < MaxInt32 ==> r > x
  {
    if x == MaxInt32 then MinInt32 else x + 1
  }

  /** Division by a power of 256 below 2^32 has one quotient and remainder. */
  lemma DivModPlace(x: int, d: int, q: int, r: int)
    requires d == 0x100 || d == 0x1_0000 || d == 0x100_0000
    requires x == q * d + r && 0 <= r < d
    ensures x / d == q && x % d == r
  {
  }

  /** Appending a byte shifts the value left by eight bits. */
  lemma BigEndianSnoc(s: seq<byte>, b: byte)
    ensures BigEndianValue(s + [b]) == BigEndianValue(s) * 0x100 + b
  {
    assert (s + [b])[..|s|] == s;
  }

  /** The value of a four-byte sequence, spelled out by place. */
  lemma BigEndianFour(s: seq<byte>)
    requires |s| == 4
    ensures BigEndianValue(s) == s[0] as int * 0x100_0000 + s[1] as int * 0x1_0000 + s[2] as int * 0x100 + s[3]
  {
    assert s == [s[0]] + [s[1]] + [s[2]] + [s[3]];
    BigEndianSnoc([], s[0]);
    BigEndianSnoc([s[0]], s[1]);
    BigEndianSnoc([s[0], s[1]], s[2]);
    BigEndianSnoc([s[0], s[1], s[2]], s[3]);
    assert [s[0]] + [s[1]] == [s[0], s[1]];
    assert [s[0], s[1]] + [s[2]] == [s[0], s[1], s[2]];
    assert [s[0], s[1], s[2]] + [s[3]] == s;
  }

  /** The value of a two-byte sequence, spelled out by place. */
  lemma BigEndianTwo(s: seq<byte>)
    requires |s| == 2
    ensures BigEndianValue(s) == s[0] as int * 0x100 + s[1]
  {
  }
}
