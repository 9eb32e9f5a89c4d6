/** Big-endian primitive reads over a byte array, as the font reader's
    `readUShort`, `readShort` and `readInt` perform them. Bytes are kept as
    their unsigned value (what `b & 0xFF` yields in Java); a read that
    reaches outside the array is the ArrayIndexOutOfBoundsException Java throws. */
module Bytes {
  import opened Wrappers

  type Byte = x: int | 0 <= x < 256

  const TwoTo15: int := 0x8000
  const TwoTo16: int := 0x1_0000
  const TwoTo31: int := 0x8000_0000
  const TwoTo32: int := 0x1_0000_0000

  /** The range of a Java `int`. */
  predicate IsInt32(x: int) { -TwoTo31 <= x < TwoTo31 }

  /** `(short)u`: reinterpret a 16-bit pattern as a two's-complement value. */
  function ToShort(u: int): (s: int)
    requires 0 <= u < TwoTo16
    ensures -TwoTo15 <= s < TwoTo15
    ensures s % TwoTo16 == u
  {
    if u >= TwoTo15 then u - TwoTo16 else u
  }

  /** Reinterpret a 32-bit pattern as a Java `int`, as `<< 24` of a byte >= 0x80 does. */
  function ToInt32(u: int): (s: int)
    requires 0 <= u < TwoTo32
    ensures IsInt32(s)
    ensures s % TwoTo32 == u
  {
    if u >= TwoTo31 then u - TwoTo32 else u
  }

  /** Unsigned 16-bit big-endian value at `off`. */
  function ReadUShort(a: seq<Byte>, off: int): (r: Result<int>)
    ensures r.Ok? <==> 0 <= off && off + 2 <= |a|
    ensures r.Ok? ==> 0 <= r.value < TwoTo16 && r.value == (a[off] as int) * 256 + a[off + 1] as int
  {
    if 0 <= off && off + 2 <= |a| then Ok((a[off] as int) * 256 + a[off + 1] as int) else Err(IndexOutOfBounds)
  }

  /** Signed 16-bit big-endian value at `off`: the two's-complement reading of ReadUShort. */
  function ReadShort(a: seq<Byte>, off: int): (r: Result<int>)
    ensures r.Ok? <==> ReadUShort(a, off).Ok?
    ensures r.Ok? ==> -TwoTo15 <= r.value < TwoTo15 && r.value % TwoTo16 == ReadUShort(a, off).value
  {
    var u :- ReadUShort(a, off);
    Ok(ToShort(u))
  }

  /** Signed 32-bit big-endian value at `off`. */
  function ReadInt(a: seq<Byte>, off: int): (r: Result<int>)
    ensures r.Ok? <==> 0 <= off && off + 4 <= |a|
    ensures r.Ok? ==> IsInt32(r.value)
    ensures r.Ok? ==> r.value % TwoTo32 == (((a[off] as int) * 256 + a[off + 1] as int) * 256 + a[off + 2] as int) * 256 + a[off + 3] as int
  {
    if 0 <= off && off + 4 <= |a| then
      Ok(ToInt32((((a[off] as int) * 256 + a[off + 1] as int) * 256 + a[off + 2] as int) * 256 + a[off + 3] as int))
    else
      Err(IndexOutOfBounds)
  }

  /** The signed Java `byte` a stored byte stands for. */
  function SignedByte(b: Byte): (s: int)
    ensures -128 <= s < 128 && s % 256 == b
  {
    if b >= 128 then b - 256 else b
  }

  /** The 32-bit read is the two 16-bit reads side by side. */
  lemma ReadIntHalves(a: seq<Byte>, off: int)
    requires ReadInt(a, off).Ok?
    ensures ReadUShort(a, off).Ok? && ReadUShort(a, off + 2).Ok?
    ensures ReadInt(a, off).value % TwoTo32 == ReadUShort(a, off).value * TwoTo16 + ReadUShort(a, off + 2).value
  {
  }
}
