// gabac::BufferOutputStream (buffer_output_stream.cpp): an output stream that
// collects everything written to it in a DataBlock of word size 1. A
// "stream" is written as a four-byte little-endian length followed by the
// payload bytes; raw bytes are written without a length.
module BufferOutputStreams {
  import opened Bytes
  import opened DataBlocks

  datatype Option<T> = None | Some(value: T)

  /** The bytes that writeBytes copies out of a block: size() * getWordSize()
      of them, that is, every whole word. */
  function Payload(data: seq<Byte>, ws: nat): (p: seq<Byte>)
    requires ws >= 1
    ensures |p| == (|data| / ws) * ws && |p| <= |data|
    ensures p == data[..|p|]
    ensures |data| % ws == 0 ==> p == data
  {
    DivBounds(|data|, ws);
    data[..(|data| / ws) * ws]
  }

  /** What writeStream appends for a payload: its length, cast to uint32,
      in little-endian byte order, then the payload itself. */
  function Frame(payload: seq<Byte>): (r: seq<Byte>)
    ensures |r| == 4 + |payload| && r[4..] == payload
  {
    LEBytes(|payload| % TWO_32, 4) + payload
  }

  /** The reading side of the frame format: the length prefix and the payload
      it announces, or None when the bytes end too early. */
  function ParseFrame(bytes: seq<Byte>): (r: Option<(seq<Byte>, seq<Byte>)>)
    ensures r.Some? ==> 4 <= |bytes| && |r.value.1| < |bytes|
    ensures r.Some? ==> bytes == bytes[..4] + r.value.0 + r.value.1 && |r.value.0| == LE(bytes[..4])
  {
    if |bytes| < 4 then None
    else
      var len := LE(bytes[..4]);
      if |bytes| - 4 < len then None
      else
        assert bytes == bytes[..4] + bytes[4..4 + len] + bytes[4 + len..];
        Some((bytes[4..4 + len], bytes[4 + len..]))
  }

  /** Frames written one after the other. */
  function Frames(payloads: seq<seq<Byte>>): (r: seq<Byte>)
    ensures |r| >= 4 * |payloads|
  {
    if payloads == [] then [] else Frame(payloads[0]) + Frames(payloads[1..])
  }

  /** Splits a byte string into frames, as far as whole frames go. */
  function ParseFrames(bytes: seq<Byte>): (r: Option<seq<seq<Byte>>>)
    decreases |bytes|
  {
    if bytes == [] then Some([])
    else match ParseFrame(bytes)
      case None => None
      case Some((p, rest)) =>
        match ParseFrames(rest)
        case None => None
        case Some(ps) => Some([p] + ps)
  }

  predicate Fits32(payloads: seq<seq<Byte>>)
  {
    forall k :: 0 <= k < |payloads| ==> |payloads[k]| < TWO_32
  }

  lemma Pow256Four()
    ensures Pow256(4) == TWO_32
  {
    assert Pow256(4) == 256 * Pow256(3);
    assert Pow256(3) == 256 * Pow256(2);
    assert Pow256(2) == 256 * Pow256(1);
  }

  /** A frame whose payload is shorter than 2^32 bytes parses back to that
      payload, leaving whatever follows it untouched. */
  lemma FrameRoundTrip(payload: seq<Byte>, rest: seq<Byte>)
    requires |payload| < TWO_32
    ensures ParseFrame(Frame(payload) + rest) == Some((payload, rest))
  {
    var bytes := Frame(payload) + rest;
    var prefix := LEBytes(|payload| % TWO_32, 4);
    assert bytes[..4] == prefix;
    LEOfLEBytes(|payload| % TWO_32, 4);
    Pow256Four();
    assert LE(bytes[..4]) == |payload|;
    assert bytes[4..4 + |payload|] == payload;
    assert bytes[4 + |payload|..] == rest;
  }

  /** A payload of 2^32 bytes or more gets a length prefix that is its length
      modulo 2^32, so the frame does not parse back to it. */
  lemma FrameLengthWraps(payload: seq<Byte>)
    requires |payload| >= TWO_32
    ensures ParseFrame(Frame(payload)).Some?
    ensures |ParseFrame(Frame(payload)).value.0| == |payload| - TWO_32 * (|payload| / TWO_32)
    ensures ParseFrame(Frame(payload)) != Some((payload, []))
  {
    var bytes := Frame(payload);
    assert bytes[..4] == LEBytes(|payload| % TWO_32, 4);
    LEOfLEBytes(|payload| % TWO_32, 4);
    Pow256Four();
    assert LE(bytes[..4]) == |payload| % TWO_32;
  }

  /** Payloads written as consecutive streams, each shorter than 2^32 bytes,
      are recovered in order. */
  lemma {:induction false} FramesRoundTrip(payloads: seq<seq<Byte>>)
    requires Fits32(payloads)
    ensures ParseFrames(Frames(payloads)) == Some(payloads)
    decreases |payloads|
  {
    if payloads != [] {
      var p := payloads[0];
      var ps := payloads[1..];
      assert payloads == [p] + ps;
      assert Fits32(ps) by {
        forall k | 0 <= k < |ps|
          ensures |ps[k]| < TWO_32
        {
          assert ps[k] == payloads[k + 1];
        }
      }
      FramesRoundTrip(ps);
      FrameRoundTrip(p, Frames(ps));
      assert Frames(payloads) != [] by {
        assert |Frames(payloads)| >= 4 * |payloads|;
      }
    }
  }

  /** push_back of a byte into a block of word size 1 appends that byte. */
  lemma ByteWords(bytes: seq<Byte>)
    ensures forall k :: 0 <= k < |bytes| ==> WordBytes(bytes[k], 1) == [bytes[k]]
  {
    forall k | 0 <= k < |bytes|
      ensures WordBytes(bytes[k], 1) == [bytes[k]]
    {
      assert LEBytes(bytes[k] % TWO_64, 1) == [bytes[k] % TWO_64 % 256] + LEBytes(bytes[k] % TWO_64 / 256, 0);
    }
  }

  class BufferOutputStream {
    var buffer: DataBlock

    ghost predicate Valid()
      reads this, buffer
    {
      buffer.Valid() && buffer.wordSize == 1
    }

    /** BufferOutputStream(): an empty block of word size 1. */
    constructor ()
      ensures Valid() && fresh(buffer) && buffer.data == []
    {
      buffer := new DataBlock(0, 1);
    }

    /** writeBytes(inbuffer): appends every whole word of `inbuffer` and empties
        it, keeping its word size; returns the number of bytes appended. */
    method WriteBytes(inbuffer: DataBlock) returns (n: nat)
      requires Valid() && inbuffer.Valid() && inbuffer != buffer
      modifies buffer, inbuffer
      ensures Valid()
      ensures buffer.data == old(buffer.data) + Payload(old(inbuffer.data), old(inbuffer.wordSize))
      ensures n == |Payload(old(inbuffer.data), old(inbuffer.wordSize))|
      ensures inbuffer.Valid() && inbuffer.data == [] && inbuffer.wordSize == old(inbuffer.wordSize)
    {
      var oldSize := buffer.Size();
      var newSize := inbuffer.Size() * inbuffer.wordSize;
      buffer.Resize(oldSize + newSize);
      // memcpy of newSize bytes from inbuffer->getData() to getData() + oldSize
      buffer.data := buffer.data[..oldSize] + inbuffer.data[..newSize];
      inbuffer.Clear();
      n := newSize;
    }

    /** writeStream(inbuffer): the uint32 byte count of `inbuffer` as four
        bytes, least significant first, then its bytes as writeBytes appends
        them; returns the number of bytes appended. */
    method WriteStream(inbuffer: DataBlock) returns (n: nat)
      requires Valid() && inbuffer.Valid() && inbuffer != buffer
      modifies buffer, inbuffer
      ensures Valid()
      ensures buffer.data == old(buffer.data) + Frame(Payload(old(inbuffer.data), old(inbuffer.wordSize)))
      ensures n == |Frame(Payload(old(inbuffer.data), old(inbuffer.wordSize)))|
      ensures inbuffer.Valid() && inbuffer.data == [] && inbuffer.wordSize == old(inbuffer.wordSize)
    {
      ghost var payload := Payload(inbuffer.data, inbuffer.wordSize);
      ghost var start := buffer.data;
      var size := (inbuffer.Size() * inbuffer.wordSize) % TWO_32;
      // the four bytes of the uint32, read through a byte pointer
      var bytes := LEBytes(size, 4);
      ByteWords(bytes);
      buffer.PushBack(bytes[0]);
      assert buffer.data == start + bytes[..1];
      buffer.PushBack(bytes[1]);
      assert buffer.data == start + bytes[..2];
      buffer.PushBack(bytes[2]);
      assert buffer.data == start + bytes[..3];
      buffer.PushBack(bytes[3]);
      assert buffer.data == start + bytes;
      var written := WriteBytes(inbuffer);
      assert buffer.data == start + Frame(payload);
      n := written + 4;
    }

    /** flush(outbuffer): hands the collected bytes to `outbuffer` (its old
        contents come back to this stream and are then dropped) and starts
        again with an empty block of word size 1. */
    method Flush(outbuffer: DataBlock)
      requires Valid() && outbuffer.Valid() && outbuffer != buffer
      modifies buffer, outbuffer
      ensures Valid() && buffer.data == []
      ensures outbuffer.Valid() && outbuffer.wordSize == 1 && outbuffer.data == old(buffer.data)
    {
      outbuffer.Swap(buffer);
      var empty := new DataBlock(0, 1);
      buffer.Assign(empty);
    }

    /** bytesWritten(): bytes collected since the last flush. */
    function BytesWritten(): (n: nat)
      reads this, buffer
      requires Valid()
      ensures n == |buffer.data| && n == |buffer.Words()|
    {
      buffer.Size()
    }
  }
}
