/** The integer marshalling functions of `LuaFunctions`, which scripts call as
    `bytestoint` and `inttobytes`. Both are big-endian: the consoles the
    scripts talk to store words most significant byte first, while
    `BitConverter` on the host is little-endian, so each function reverses. */
module LuaFunctions {
  import opened Twos
  import opened DotNet

  /** `ByteArrayToInt`: one byte is read unsigned, two bytes as a signed
      16-bit word, and every other length goes to `BitConverter.ToInt32` on
      the reversed array, with no length check of its own. */
  function ByteArrayToInt(bytes: seq<byte>): Result<int32>
  {
    if |bytes| == 1 then Ok(bytes[0])
    else if |bytes| == 2 then ToInt16(Reverse(bytes))
    else ToInt32(Reverse(bytes))
  }

  /** `IntToByteArray`: the first `size` bytes of the little-endian encoding
      of `num`, i.e. its low bytes, reversed into big-endian order. */
  function IntToByteArray(num: int32, size: int32): seq<byte>
  {
    Reverse(Take(GetBytes(num), size))
  }

  /** The number of bytes `IntToByteArray` returns for a requested `size`. */
  function ClampedSize(size: int): (n: nat)
    ensures n <= 4 && (n == size || (size <= 0 && n == 0) || (size > 4 && n == 4))
  {
    if size <= 0 then 0 else if size < 4 then size else 4
  }

  /** A one-byte array decodes to that byte, unsigned. */
  lemma ByteArrayToIntOneByte(bytes: seq<byte>)
    requires |bytes| == 1
    ensures ByteArrayToInt(bytes) == Ok(bytes[0])
    ensures 0 <= ByteArrayToInt(bytes).value < 0x100
  {
  }

  /** A two-byte array `[hi, lo]` decodes to the signed 16-bit number
      `hi * 256 + lo`. */
  lemma ByteArrayToIntTwoBytes(bytes: seq<byte>)
    requires |bytes| == 2
    ensures ByteArrayToInt(bytes) == Ok(Signed16(bytes[0] as int * 0x100 + bytes[1]))
    ensures ByteArrayToInt(bytes) == Ok(Signed16(BigEndianValue(bytes)))
    ensures -0x8000 <= ByteArrayToInt(bytes).value < 0x8000
  {
    var hi, lo := bytes[0] as int, bytes[1] as int;
    var r := Reverse(bytes);
    assert r[0] == lo && r[1] == hi;
    assert ToInt16(r) == Ok(Signed16(lo + 0x100 * hi));
    assert lo + 0x100 * hi == hi * 0x100 + lo;
    BigEndianTwo(bytes);
  }

  /** An array of four or more bytes decodes to the signed 32-bit big-endian
      value of its last four bytes. */
  lemma ByteArrayToIntWord(bytes: seq<byte>)
    requires |bytes| >= 4
    ensures ByteArrayToInt(bytes) == Ok(Signed32(BigEndianValue(bytes[|bytes| - 4..])))
  {
    var n := |bytes|;
    var last := bytes[n - 4..];
    BigEndianFour(last);
    var r := Reverse(bytes);
    assert r[0] == last[3] && r[1] == last[2] && r[2] == last[1] && r[3] == last[0];
  }

  /** Exactly four bytes decode to their signed 32-bit big-endian value. */
  lemma ByteArrayToIntFourBytes(bytes: seq<byte>)
    requires |bytes| == 4
    ensures ByteArrayToInt(bytes) == Ok(Signed32(BigEndianValue(bytes)))
  {
    ByteArrayToIntWord(bytes);
    assert bytes[0..] == bytes;
  }

  /** Past four bytes, everything before the last four is ignored. */
  lemma ByteArrayToIntLastFourOnly(a: seq<byte>, b: seq<byte>)
    requires |a| >= 4 && |b| >= 4
    requires a[|a| - 4..] == b[|b| - 4..]
    ensures ByteArrayToInt(a) == ByteArrayToInt(b)
  {
  }

  /** The only lengths that fail are 0 and 3, with the exception
      `BitConverter.ToInt32` throws for each. */
  lemma ByteArrayToIntErrors(bytes: seq<byte>)
    ensures ByteArrayToInt(bytes).Err? <==> |bytes| == 0 || |bytes| == 3
    ensures |bytes| == 0 ==> ByteArrayToInt(bytes) == Err(StartIndexOutOfRange)
    ensures |bytes| == 3 ==> ByteArrayToInt(bytes) == Err(ArrayPlusOffsetTooSmall)
  {
  }

  /** The four little-endian bytes of `GetBytes`, read back as place values. */
  lemma GetBytesPlaces(v: int32)
    ensures var u, g := Unsigned32(v), GetBytes(v);
      && u % 0x100 == g[0]
      && u % 0x1_0000 == g[0] + 0x100 * g[1] as int
      && u % 0x100_0000 == g[0] + 0x100 * g[1] as int + 0x1_0000 * g[2] as int
      && u == g[0] + 0x100 * g[1] as int + 0x1_0000 * g[2] as int + 0x100_0000 * g[3] as int
  {
    var u, g := Unsigned32(v), GetBytes(v);
    var q1 := u / 0x100;
    var q2 := q1 / 0x100;
    var q3 := q2 / 0x100;
    assert u == q1 * 0x100 + g[0];
    assert g[1] == q1 % 0x100 && q1 == q2 * 0x100 + g[1];
    var low2 := g[0] + 0x100 * g[1] as int;
    DivModPlace(u, 0x1_0000, q2, low2);
    assert g[2] == q2 % 0x100 && q2 == q3 * 0x100 + g[2];
    var low3 := low2 + 0x1_0000 * g[2] as int;
    DivModPlace(u, 0x100_0000, q3, low3);
    assert q3 < 0x100;
    assert g[3] == q3;
  }

  /** The big-endian value of the low `k` bytes of `GetBytes(v)`, reversed,
      for `k` = 1, 2, 3 and 4. */
  lemma LowBytesOne(v: int32)
    ensures BigEndianValue(Reverse(GetBytes(v)[..1])) == Unsigned32(v) % Pow256(1)
  {
    assert Pow256(1) == 0x100;
    var g := GetBytes(v);
    GetBytesPlaces(v);
    assert Reverse(g[..1]) == [] + [g[0]];
    BigEndianSnoc([], g[0]);
  }

  lemma LowBytesTwo(v: int32)
    ensures BigEndianValue(Reverse(GetBytes(v)[..2])) == Unsigned32(v) % Pow256(2)
  {
    assert Pow256(2) == 0x1_0000;
    var g := GetBytes(v);
    GetBytesPlaces(v);
    assert Reverse(g[..2]) == [g[1], g[0]];
    BigEndianTwo([g[1], g[0]]);
  }

  lemma LowBytesThree(v: int32)
    ensures BigEndianValue(Reverse(GetBytes(v)[..3])) == Unsigned32(v) % Pow256(3)
  {
    assert Pow256(3) == 0x100_0000;
    var g := GetBytes(v);
    GetBytesPlaces(v);
    assert Reverse(g[..3]) == [g[2], g[1]] + [g[0]];
    BigEndianTwo([g[2], g[1]]);
    BigEndianSnoc([g[2], g[1]], g[0]);
  }

  lemma LowBytesFour(v: int32)
    ensures BigEndianValue(Reverse(GetBytes(v)[..4])) == Unsigned32(v) % Pow256(4)
    ensures BigEndianValue(Reverse(GetBytes(v))) == Unsigned32(v)
  {
    assert Pow256(4) == 0x1_0000_0000 && GetBytes(v)[..4] == GetBytes(v);
    var g := GetBytes(v);
    GetBytesPlaces(v);
    assert Reverse(g) == [g[3], g[2], g[1], g[0]];
    BigEndianFour(Reverse(g));
  }

  /** `IntToByteArray` returns `size` clamped to 0..4 bytes, and they are the
      low bytes of `num`'s two's-complement pattern, most significant first. */
  lemma IntToByteArrayLowBytes(num: int32, size: int32)
    ensures |IntToByteArray(num, size)| == ClampedSize(size)
    ensures BigEndianValue(IntToByteArray(num, size)) == Unsigned32(num) % Pow256(ClampedSize(size))
  {
    var g := GetBytes(num);
    var k := ClampedSize(size);
    assert Take(g, size) == g[..k];
    LowBytes(num, k);
  }

  /** The low `k` bytes of `GetBytes(v)`, reversed, read big-endian. */
  lemma LowBytes(v: int32, k: nat)
    requires k <= 4
    ensures BigEndianValue(Reverse(GetBytes(v)[..k])) == Unsigned32(v) % Pow256(k)
  {
    var g := GetBytes(v);
    if k == 0 {
      assert Reverse(g[..k]) == [];
    } else if k == 1 {
      LowBytesOne(v);
    } else if k == 2 {
      LowBytesTwo(v);
    } else if k == 3 {
      LowBytesThree(v);
    } else {
      LowBytesFour(v);
    }
  }

  /** Encoding to four bytes (or more requested, which is clamped to four)
      and decoding gives the number back. */
  lemma RoundTripWord(v: int32, size: int32)
    requires size >= 4
    ensures ByteArrayToInt(IntToByteArray(v, size)) == Ok(v)
  {
    var g := GetBytes(v);
    assert IntToByteArray(v, size) == Reverse(g) by {
      assert Take(g, size) == g;
    }
    LowBytesFour(v);
    ByteArrayToIntFourBytes(Reverse(g));
  }

  /** Encoding to two bytes and decoding gives the low 16 bits of the number,
      sign-extended. */
  lemma RoundTripHalf(v: int32)
    ensures ByteArrayToInt(IntToByteArray(v, 2)) == Ok(Signed16(v % 0x1_0000))
  {
    var r := IntToByteArray(v, 2);
    IntToByteArrayLowBytes(v, 2);
    ByteArrayToIntTwoBytes(r);
    var u := Unsigned32(v);
    assert u % 0x1_0000 == v % 0x1_0000 by {
      var q, m := v / 0x1_0000, v % 0x1_0000;
      if v < 0 {
        DivModPlace(u, 0x1_0000, q + 0x1_0000, m);
      }
    }
  }

  /** Encoding to one byte and decoding gives the number modulo 256. */
  lemma RoundTripByte(v: int32)
    ensures ByteArrayToInt(IntToByteArray(v, 1)) == Ok(v % 0x100)
  {
    var r := IntToByteArray(v, 1);
    var u := Unsigned32(v);
    GetBytesPlaces(v);
    assert r == [GetBytes(v)[0]];
    assert u % 0x100 == v % 0x100 by {
      var q, m := v / 0x100, v % 0x100;
      if v < 0 {
        DivModPlace(u, 0x100, q + 0x100_0000, m);
      }
    }
  }

  /** A size of 3, or of zero or less, produces an array that does not decode. */
  lemma RoundTripFails(v: int32, size: int32)
    requires size <= 0 || size == 3
    ensures ByteArrayToInt(IntToByteArray(v, size)).Err?
  {
  }

  /** Worked values: big-endian order in both directions, negative numbers,
      and the three-byte failure. */
  lemma MarshallingExamples()
    ensures IntToByteArray(258, 2) == [0x01, 0x02]
    ensures IntToByteArray(1, 2) == [0x00, 0x01]
    ensures ByteArrayToInt([0x00, 0x01]) == Ok(1)
    ensures IntToByteArray(-1, 4) == [0xFF, 0xFF, 0xFF, 0xFF]
    ensures ByteArrayToInt([0xFF, 0xFE]) == Ok(-2)
    ensures ByteArrayToInt([0x12, 0x34, 0x56, 0x78]) == Ok(0x1234_5678)
    ensures ByteArrayToInt([0x01, 0x02, 0x03]) == Err(ArrayPlusOffsetTooSmall)
  {
    assert GetBytes(258) == [0x02, 0x01, 0x00, 0x00];
    assert GetBytes(1) == [0x01, 0x00, 0x00, 0x00];
    assert GetBytes(-1) == [0xFF, 0xFF, 0xFF, 0xFF];
    assert Reverse([0x00, 0x01]) == [0x01, 0x00];
    assert Reverse([0xFF, 0xFE]) == [0xFE, 0xFF];
    assert Reverse([0x12, 0x34, 0x56, 0x78]) == [0x78, 0x56, 0x34, 0x12];
  }
}
