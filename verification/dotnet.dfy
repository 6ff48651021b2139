/** The .NET library calls the marshalling functions are built from:
    `System.BitConverter` on a little-endian host and the LINQ operators
    `Reverse` and `Take`. */
module DotNet {
  import opened Twos

  /** The two exceptions `BitConverter.ToInt16`/`ToInt32` throw for an array
      too short to read from: `startIndex` not inside the array
      (ArgumentOutOfRangeException), or fewer bytes left than the width
      (ArgumentException). */
  datatype ConversionError = StartIndexOutOfRange | ArrayPlusOffsetTooSmall

  datatype Result<T> = Ok(value: T) | Err(error: ConversionError)

  /** `Enumerable.Reverse`. */
  function Reverse<T>(s: seq<T>): (r: seq<T>)
    ensures |r| == |s|
  {
    seq(|s|, i requires 0 <= i < |s| => s[|s| - 1 - i])
  }

  /** `Enumerable.Take`: at most `n` leading elements, none when `n <= 0`. */
  function Take<T>(s: seq<T>, n: int): (r: seq<T>)
    ensures |r| == if n <= 0 then 0 else if n < |s| then n else |s|
    ensures r == s[..|r|]
  {
    if n <= 0 then [] else if n < |s| then s[..n] else s
  }

  /** `BitConverter.GetBytes(int)` on a little-endian host: the four bytes of
      the two's-complement pattern, least significant first. */
  function GetBytes(v: int32): (r: seq<byte>)
    ensures |r| == 4
  {
    var u := Unsigned32(v);
    [u % 0x100, u / 0x100 % 0x100, u / 0x1_0000 % 0x100, u / 0x100_0000 % 0x100]
  }

  /** The bounds check shared by `ToInt16` and `ToInt32` at index 0. */
  function CheckRead(length: nat, width: nat): (r: Result<()>)
    requires width > 0
    ensures r.Ok? <==> width <= length
  {
    if length == 0 then Err(StartIndexOutOfRange)
    else if length < width then Err(ArrayPlusOffsetTooSmall)
    else Ok(())
  }

  /** `BitConverter.ToInt16(a, 0)` on a little-endian host. */
  function ToInt16(a: seq<byte>): (r: Result<int32>)
    ensures r.Ok? <==> |a| >= 2
  {
    match CheckRead(|a|, 2)
    case Err(e) => Err(e)
    case Ok(_) => Ok(Signed16(a[0] + 0x100 * a[1] as int))
  }

  /** `BitConverter.ToInt32(a, 0)` on a little-endian host. */
  function ToInt32(a: seq<byte>): (r: Result<int32>)
    ensures r.Ok? <==> |a| >= 4
  {
    match CheckRead(|a|, 4)
    case Err(e) => Err(e)
    case Ok(_) =>
      Ok(Signed32(a[0] + 0x100 * a[1] as int + 0x1_0000 * a[2] as int + 0x100_0000 * a[3] as int))
  }
}
