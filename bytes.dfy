/** Bytes, little-endian fixed-width integers and the random-access file the reader
    reads from. `lance/io/endian.h` (`ReadInt`) and Arrow's `RandomAccessFile` are not
    part of this model; they are given the meaning the reader relies on: a two's
    complement little-endian integer, and a read of an exact byte range. */
module Bytes {
  import opened Wrappers

  type byte = x: int | 0 <= x < 256

  const INT32_MIN: int := -0x8000_0000
  const INT32_MAX: int := 0x7FFF_FFFF
  const INT64_MIN: int := -0x8000_0000_0000_0000
  const INT64_MAX: int := 0x7FFF_FFFF_FFFF_FFFF

  function Pow256(n: nat): (p: nat)
    ensures p >= 1
  {
    if n == 0 then 1 else 256 * Pow256(n - 1)
  }

  /** The unsigned value of `bs`, least significant byte first. */
  function LittleEndian(bs: seq<byte>): nat {
    if bs == [] then 0 else bs[0] + 256 * LittleEndian(bs[1..])
  }

  lemma {:induction false} LittleEndianBound(bs: seq<byte>)
    ensures LittleEndian(bs) < Pow256(|bs|)
  {
    if bs != [] {
      LittleEndianBound(bs[1..]);
    }
  }

  /** The `n` bytes of `x`, least significant first. */
  function EncodeLittleEndian(x: nat, n: nat): (bs: seq<byte>)
    requires x < Pow256(n)
    ensures |bs| == n
  {
    if n == 0 then [] else [x % 256] + EncodeLittleEndian(x / 256, n - 1)
  }

  lemma {:induction false} LittleEndianRoundTrip(x: nat, n: nat)
    requires x < Pow256(n)
    ensures LittleEndian(EncodeLittleEndian(x, n)) == x
  {
    if n > 0 {
      var bs := EncodeLittleEndian(x, n);
      assert bs[1..] == EncodeLittleEndian(x / 256, n - 1);
      LittleEndianRoundTrip(x / 256, n - 1);
    }
  }

  /** The signed value of four little-endian bytes, in two's complement. */
  function Int32Of(bs: seq<byte>): (v: int)
    requires |bs| == 4
    ensures INT32_MIN <= v <= INT32_MAX
  {
    LittleEndianBound(bs);
    assert Pow256(4) == 0x1_0000_0000;
    var u := LittleEndian(bs);
    if u <= INT32_MAX then u else u - 0x1_0000_0000
  }

  /** `ReadInt<int32_t>` on the four bytes at `pos`. */
  function ReadInt32(buf: seq<byte>, pos: int): (v: int)
    requires 0 <= pos && pos + 4 <= |buf|
    ensures INT32_MIN <= v <= INT32_MAX
  {
    Int32Of(buf[pos..pos + 4])
  }

  /** The signed value of eight little-endian bytes, in two's complement. */
  function Int64Of(bs: seq<byte>): (v: int)
    requires |bs| == 8
    ensures INT64_MIN <= v <= INT64_MAX
  {
    LittleEndianBound(bs);
    assert Pow256(8) == 0x1_0000_0000_0000_0000;
    var u := LittleEndian(bs);
    if u <= INT64_MAX then u else u - 0x1_0000_0000_0000_0000
  }

  /** `ReadInt<int64_t>` on the eight bytes at `pos`. */
  function ReadInt64(buf: seq<byte>, pos: int): (v: int)
    requires 0 <= pos && pos + 8 <= |buf|
    ensures INT64_MIN <= v <= INT64_MAX
  {
    Int64Of(buf[pos..pos + 8])
  }

  /** The four bytes that `WriteInt<int32_t>` would store for `v`. */
  function EncodeInt32(v: int): (bs: seq<byte>)
    requires INT32_MIN <= v <= INT32_MAX
    ensures |bs| == 4
  {
    EncodeLittleEndian(if v >= 0 then v else v + 0x1_0000_0000, 4)
  }

  /** The eight bytes that `WriteInt<int64_t>` would store for `v`. */
  function EncodeInt64(v: int): (bs: seq<byte>)
    requires INT64_MIN <= v <= INT64_MAX
    ensures |bs| == 8
  {
    EncodeLittleEndian(if v >= 0 then v else v + 0x1_0000_0000_0000_0000, 8)
  }

  lemma Int32RoundTrip(prefix: seq<byte>, v: int, suffix: seq<byte>)
    requires INT32_MIN <= v <= INT32_MAX
    ensures ReadInt32(prefix + EncodeInt32(v) + suffix, |prefix|) == v
  {
    var buf := prefix + EncodeInt32(v) + suffix;
    assert buf[|prefix|..|prefix| + 4] == EncodeInt32(v);
    LittleEndianRoundTrip(if v >= 0 then v else v + 0x1_0000_0000, 4);
  }

  lemma Int64RoundTrip(prefix: seq<byte>, v: int, suffix: seq<byte>)
    requires INT64_MIN <= v <= INT64_MAX
    ensures ReadInt64(prefix + EncodeInt64(v) + suffix, |prefix|) == v
  {
    var buf := prefix + EncodeInt64(v) + suffix;
    assert buf[|prefix|..|prefix| + 8] == EncodeInt64(v);
    LittleEndianRoundTrip(if v >= 0 then v else v + 0x1_0000_0000_0000_0000, 8);
  }

  /** `RandomAccessFile::ReadAt(position, nbytes)` on a file whose contents are `file`.
      A range that does not lie inside the file is an IOError. */
  function FileReadAt(file: seq<byte>, position: int, nbytes: int): (r: Result<seq<byte>>)
    ensures r.Ok? <==> 0 <= position && 0 <= nbytes && position + nbytes <= |file|
    ensures r.Ok? ==> r.value == file[position..position + nbytes]
    ensures r.Err? ==> r.error.IOError?
  {
    if 0 <= position && 0 <= nbytes && position + nbytes <= |file| then
      Ok(file[position..position + nbytes])
    else
      Err(IOError("Read out of file range"))
  }

  /** `ReadInt<int32_t>(source, offset)`: read four bytes at `offset` and decode them. */
  function FileReadInt32(file: seq<byte>, offset: int): (r: Result<int>)
    ensures r.Ok? <==> 0 <= offset && offset + 4 <= |file|
    ensures r.Ok? ==> r.value == ReadInt32(file, offset)
    ensures r.Err? ==> r == Err(FileReadAt(file, offset, 4).error)
  {
    var buf :- FileReadAt(file, offset, 4);
    assert buf[0..4] == file[offset..offset + 4];
    Ok(ReadInt32(buf, 0))
  }
}
