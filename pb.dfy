/** Reading a length-prefixed protobuf message (`lance/io/pb.h`): a little-endian int32
    size followed by that many bytes of the encoded message. Protobuf decoding itself is
    not part of this model: it is the parameter `parse`, which gives the message for the
    bytes, or nothing when they do not decode. */
module Protobuf {
  import opened Wrappers
  import opened Bytes

  /** `ParseProto(buf)`: the message whose size is the buffer's first int32. The buffer
      must hold the size and the whole message. */
  function ParseProtoBuffer<P>(buf: seq<byte>, parse: seq<byte> -> Option<P>): (r: Result<P>)
    requires |buf| >= 4 && 0 <= ReadInt32(buf, 0) && 4 + ReadInt32(buf, 0) <= |buf|
    ensures r.Ok? <==> parse(buf[4..4 + ReadInt32(buf, 0)]).Some?
    ensures r.Ok? ==> r.value == parse(buf[4..4 + ReadInt32(buf, 0)]).value
    ensures r.Err? ==> r.error.Invalid?
  {
    var size := ReadInt32(buf, 0);
    match parse(buf[4..4 + size])
    case None => Err(Invalid("Failed to parse protobuf"))
    case Some(p) => Ok(p)
  }

  /** `ParseProto(source, offset)`: the size is read at `offset` and the message right
      after it. A failed read of either is returned as it is; bytes that do not decode are
      Invalid. */
  function ParseProtoFile<P>(file: seq<byte>, offset: int, parse: seq<byte> -> Option<P>): (r: Result<P>)
    ensures FileReadInt32(file, offset).Err? ==> r == Err(FileReadInt32(file, offset).error)
    ensures r.Ok? ==> 0 <= offset && offset + 4 <= |file|
    ensures r.Ok? ==>
      var size := ReadInt32(file, offset);
      && 0 <= size && offset + 4 + size <= |file|
      && parse(file[offset + 4..offset + 4 + size]) == Some(r.value)
    ensures r.Err? && r.error.Invalid? ==>
      && FileReadInt32(file, offset).Ok?
      && 0 <= ReadInt32(file, offset) && offset + 4 + ReadInt32(file, offset) <= |file|
      && parse(file[offset + 4..offset + 4 + ReadInt32(file, offset)]).None?
  {
    var size :- FileReadInt32(file, offset);
    var bytes :- FileReadAt(file, offset + 4, size);
    match parse(bytes)
    case None => Err(Invalid("Failed to parse protobuf"))
    case Some(p) => Ok(p)
  }

  /** The bytes a message is stored as: its size, then its encoding. */
  function Framed(payload: seq<byte>): (bs: seq<byte>)
    requires |payload| <= INT32_MAX
    ensures |bs| == 4 + |payload|
  {
    EncodeInt32(|payload|) + payload
  }

  /** A framed message at the head of a buffer reads back as the message. */
  lemma BufferRoundTrip<P>(payload: seq<byte>, rest: seq<byte>, parse: seq<byte> -> Option<P>, p: P)
    requires |payload| <= INT32_MAX && parse(payload) == Some(p)
    ensures
      var buf := Framed(payload) + rest;
      && |buf| >= 4 && ReadInt32(buf, 0) == |payload| && 4 + |payload| <= |buf|
      && ParseProtoBuffer(buf, parse) == Ok(p)
  {
    var buf := Framed(payload) + rest;
    Int32RoundTrip([], |payload|, payload + rest);
    assert [] + EncodeInt32(|payload|) + (payload + rest) == buf;
    assert buf[4..4 + |payload|] == payload;
  }

  /** A framed message stored anywhere in a file reads back from its offset. */
  lemma FileRoundTrip<P>(before: seq<byte>, payload: seq<byte>, after: seq<byte>,
                         parse: seq<byte> -> Option<P>, p: P)
    requires |payload| <= INT32_MAX && parse(payload) == Some(p)
    ensures ParseProtoFile(before + Framed(payload) + after, |before|, parse) == Ok(p)
  {
    var file := before + Framed(payload) + after;
    Int32RoundTrip(before, |payload|, payload + after);
    assert before + EncodeInt32(|payload|) + (payload + after) == file;
    assert file[|before| + 4..|before| + 4 + |payload|] == payload;
  }

  /** When the size at `offset` is negative or runs past the end of the file, the message
      read fails with an IOError and the parser is never consulted. */
  lemma TruncatedMessageIsIOError<P>(file: seq<byte>, offset: int, parse: seq<byte> -> Option<P>)
    requires 0 <= offset && offset + 4 <= |file|
    requires var size := ReadInt32(file, offset); size < 0 || offset + 4 + size > |file|
    ensures ParseProtoFile(file, offset, parse).Err?
    ensures ParseProtoFile(file, offset, parse).error.IOError?
  {
  }
}
