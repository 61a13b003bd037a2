// gabac::BitInputStream (bit_input_stream.cpp): reads bits most significant
// first from a byte vector, keeping the unread low bits of the last byte
// loaded. Reading a byte past the end (DataStream::at throwing) is the
// None result.
module BitInputStreams {
  import opened Bytes
  import opened BitSeqs

  datatype Option<T> = None | Some(value: T)

  // ---------------------------------------------------------------------------
  // The fall-through load of read()

  /** b0 << 8(q-1) | ... | b(q-1): the value of q bytes, most significant
      first. */
  function BEWord(bs: seq<Byte>): nat
  {
    if bs == [] then 0 else Shl(bs[0], 8 * (|bs| - 1)) + BEWord(bs[1..])
  }

  /** hi < 2^a shifted above lo < 2^b stays below 2^(a+b). */
  lemma {:induction false} ShlAddBound(hi: nat, lo: nat, a: nat, b: nat)
    requires hi < Pow2(a) && lo < Pow2(b)
    ensures Shl(hi, b) + lo < Pow2(a + b)
  {
    if b > 0 {
      ShlAddBound(hi, lo / 2, a, b - 1);
    }
  }

  /** The loaded word spells the bits of the loaded bytes. */
  lemma {:induction false} BEWordBits(bs: seq<Byte>)
    ensures BEWord(bs) < Pow2(8 * |bs|)
    ensures BitsOf(BEWord(bs), 8 * |bs|) == BytesBits(bs)
  {
    if bs != [] {
      var rest := bs[1..];
      BEWordBits(rest);
      assert Pow2(8) == 0x100;
      ShlAddBound(bs[0], BEWord(rest), 8, 8 * |rest|);
      BitsOfConcat(bs[0], BEWord(rest), 8, 8 * |rest|, 8 * |bs|);
    }
  }

  /** The loaded word split at `next`: the n bits a read takes, then the
      bits it holds, which are also the low bits of the word's last byte. */
  lemma LoadedSplit(loaded: seq<Byte>, n: nat, next: nat)
    requires 8 * |loaded| == n + next && next <= 8
    ensures Shr(BEWord(loaded), next) < Pow2(n)
    ensures BytesBits(loaded) == BitsOf(Shr(BEWord(loaded), next), n) + BitsOf(LowByte(BEWord(loaded)), next)
  {
    var w := BEWord(loaded);
    BEWordBits(loaded);
    BitsOfSplit(w, n, next, n + next);
    ShrBound(w, n + next, next, n);
    BitsOfLow(w, next, next);
    BitsOfLow(w, 8, next);
  }

  /** The held bits followed by s's n bits are the bits of one number. */
  lemma HeldJoin(held: Byte, h: nat, s: nat, n: nat)
    requires s < Pow2(n)
    ensures Shl(Low(held, h), n) + s < Pow2(h + n)
    ensures BitsOf(held, h) + BitsOf(s, n) == BitsOf(Shl(Low(held, h), n) + s, h + n)
  {
    LowBound(held, h);
    ShlAddBound(Low(held, h), s, h, n);
    BitsOfConcat(Low(held, h), s, h, n, h + n);
    BitsOfLow(held, h, h);
  }

  lemma SplitThree(a: seq<bool>, b: seq<bool>, c: seq<bool>, d: seq<bool>)
    ensures (a + (b + c + d))[..|a| + |b|] == a + b
    ensures (a + (b + c + d))[|a| + |b|..] == c + d
  {
    assert a + (b + c + d) == (a + b) + (c + d);
  }

  /** What an n-bit read that loads `loaded` returns: the first n unread
      bits of R as a number, below 2^32; the rest of R stays unread. */
  lemma ReadWholeValue(R: seq<bool>, held: Byte, h: nat, n: nat, next: nat, loaded: seq<Byte>, rest: seq<Byte>)
    requires R == BitsOf(held, h) + BytesBits(loaded + rest)
    requires 8 * |loaded| == n + next && next < 8 && h + n <= 32
    ensures Shl(Low(held, h), n) + Shr(BEWord(loaded), next) < TWO_32
    ensures h + n <= |R| && Value(R[..h + n]) == Shl(Low(held, h), n) + Shr(BEWord(loaded), next)
    ensures R[h + n..] == BitsOf(LowByte(BEWord(loaded)), next) + BytesBits(rest)
  {
    var s := Shr(BEWord(loaded), next);
    ReadBits(R, held, h, n, next, loaded, rest);
    HeldJoin(held, h, s, n);
    ReadNumber(R[..h + n], Shl(Low(held, h), n) + s, h + n);
  }

  /** The unread bits split after the read: the held bits and the n top
      bits of the loaded word, then the bits held next and the bytes not
      loaded. */
  lemma ReadBits(R: seq<bool>, held: Byte, h: nat, n: nat, next: nat, loaded: seq<Byte>, rest: seq<Byte>)
    requires R == BitsOf(held, h) + BytesBits(loaded + rest)
    requires 8 * |loaded| == n + next && next < 8
    ensures Shr(BEWord(loaded), next) < Pow2(n)
    ensures h + n <= |R| && R[..h + n] == BitsOf(held, h) + BitsOf(Shr(BEWord(loaded), next), n)
    ensures R[h + n..] == BitsOf(LowByte(BEWord(loaded)), next) + BytesBits(rest)
  {
    var w := BEWord(loaded);
    BytesBitsAppend(loaded, rest);
    LoadedSplit(loaded, n, next);
    SplitThree(BitsOf(held, h), BitsOf(Shr(w, next), n), BitsOf(LowByte(w), next), BytesBits(rest));
  }

  /** The k bits of v < 2^k, k <= 32, spell v, which fits in 32 bits. */
  lemma ReadNumber(bits: seq<bool>, v: nat, k: nat)
    requires v < Pow2(k) && k <= 32 && bits == BitsOf(v, k)
    ensures Value(bits) == v && v < TWO_32
  {
    ValueOfBitsOf(v, k);
    Below32(v, k);
  }

  lemma Below32(v: nat, k: nat)
    requires v < Pow2(k) && k <= 32
    ensures v < TWO_32
  {
    Pow2Monotone(k, 32);
    Pow2Of32();
  }

  /** A read served from the held bits: their top n, and the rest stays held. */
  lemma HeldValue(held: Byte, h: nat, n: nat, tail: seq<bool>)
    requires n <= h
    ensures (BitsOf(held, h) + tail)[..n] == BitsOf(Low(Shr(held, h - n), n), n)
    ensures (BitsOf(held, h) + tail)[n..] == BitsOf(held, h - n) + tail
    ensures Value(BitsOf(Low(Shr(held, h - n), n), n)) == Low(Shr(held, h - n), n)
  {
    BitsOfSplit(held, n, h - n, h);
    BitsOfLow(held, h - n, h - n);
    BitsOfLow(Shr(held, h - n), n, n);
    LowBound(Shr(held, h - n), n);
    ValueOfBitsOf(Low(Shr(held, h - n), n), n);
    assert BitsOf(held, h) + tail == BitsOf(Shr(held, h - n), n) + (BitsOf(held, h - n) + tail);
  }

  class BitInputStream {
    const bitstream: seq<Byte>
    var heldBits: Byte
    var numHeldBits: nat
    var bitstreamIndex: nat

    ghost predicate Valid()
      reads this
    {
      numHeldBits < 8 && bitstreamIndex <= |bitstream|
    }

    /** The bits not read yet: the low numHeldBits held bits, then the bytes
        from the index on. */
    ghost function Remaining(): seq<bool>
      reads this
      requires Valid()
    {
      BitsOf(heldBits, numHeldBits) + BytesBits(bitstream[bitstreamIndex..])
    }

    /** The constructor resets the stream. */
    constructor (bs: seq<Byte>)
      ensures Valid() && bitstream == bs && Remaining() == BytesBits(bs)
      ensures heldBits == 0 && numHeldBits == 0 && bitstreamIndex == 0
    {
      bitstream := bs;
      heldBits := 0;
      numHeldBits := 0;
      bitstreamIndex := 0;
      new;
      assert bs[0..] == bs;
    }

    /** reset: back to the first bit of the vector. */
    method Reset()
      modifies this
      ensures Valid() && Remaining() == BytesBits(bitstream)
      ensures heldBits == 0 && numHeldBits == 0 && bitstreamIndex == 0
    {
      heldBits := 0;
      numHeldBits := 0;
      bitstreamIndex := 0;
      assert bitstream[0..] == bitstream;
    }

    /** getNumBitsUntilByteAligned: numHeldBits & 7. The unread bits past
        that many make whole bytes. */
    function NumBitsUntilByteAligned(): (r: nat)
      reads this
      requires Valid()
      ensures r < 8 && r <= |Remaining()| && (|Remaining()| - r) % 8 == 0
    {
      numHeldBits % 8
    }

    /** read(numBits): the next numBits bits as a number. The held bits
        serve it when there are enough of them; otherwise all held bits are
        taken, ceil((numBits - held) / 8) bytes are loaded big-endian, and
        the unused low bits of the last of them are held. */
    method Read(numBits: nat) returns (r: Option<U32>)
      requires Valid() && numBits <= 32
      modifies this
      ensures Valid()
      ensures numBits <= |old(Remaining())| ==>
                r == Some(Value(old(Remaining())[..numBits])) && Remaining() == old(Remaining())[numBits..]
      ensures numBits > |old(Remaining())| ==>
                r == None && bitstreamIndex == |bitstream| &&
                heldBits == old(heldBits) && numHeldBits == old(numHeldBits)
      ensures numBits <= old(numHeldBits) ==>
                numHeldBits == old(numHeldBits) - numBits && bitstreamIndex == old(bitstreamIndex)
      ensures old(numHeldBits) < numBits <= |old(Remaining())| ==>
                bitstreamIndex == old(bitstreamIndex) + (numBits - old(numHeldBits) - 1) / 8 + 1 &&
                numHeldBits == (32 - (numBits - old(numHeldBits))) % 8
    {
      if numBits <= numHeldBits {
        var bits := ReadHeld(numBits);
        return Some(bits);
      }
      r := ReadLoad(numBits);
    }

    /** read with numBits <= held: (heldBits >> (held - numBits)) &
        ~(0xff << numBits). The shifted byte is below 2^(numBits + 8), so the
        mask keeps exactly its low numBits bits. */
    method ReadHeld(numBits: nat) returns (bits: U32)
      requires Valid() && numBits <= numHeldBits
      modifies this
      ensures Valid() && bitstreamIndex == old(bitstreamIndex) && numHeldBits == old(numHeldBits) - numBits
      ensures bits == Value(old(Remaining())[..numBits]) && Remaining() == old(Remaining())[numBits..]
    {
      ghost var tail := BytesBits(bitstream[bitstreamIndex..]);
      var v := Low(Shr(heldBits, numHeldBits - numBits), numBits);
      HeldValue(heldBits, numHeldBits, numBits, tail);
      LowBound(Shr(heldBits, numHeldBits - numBits), numBits);
      Pow2Monotone(numBits, 32);
      Pow2Of32();
      bits := v;
      numHeldBits := numHeldBits - numBits;
    }

    /** read with numBits > held: all held bits, then whole bytes. */
    method ReadLoad(numBits: nat) returns (r: Option<U32>)
      requires Valid() && numHeldBits < numBits <= 32
      modifies this
      ensures Valid()
      ensures numBits <= |old(Remaining())| ==>
                r == Some(Value(old(Remaining())[..numBits])) && Remaining() == old(Remaining())[numBits..] &&
                bitstreamIndex == old(bitstreamIndex) + (numBits - old(numHeldBits) - 1) / 8 + 1 &&
                numHeldBits == (32 - (numBits - old(numHeldBits))) % 8
      ensures numBits > |old(Remaining())| ==>
                r == None && bitstreamIndex == |bitstream| &&
                heldBits == old(heldBits) && numHeldBits == old(numHeldBits)
    {
      var n := numBits - numHeldBits;
      var numBytesToLoad := (n - 1) / 8 + 1;
      LoadCounts(numHeldBits, n, numBytesToLoad, |bitstream| - bitstreamIndex);
      if bitstreamIndex + numBytesToLoad > |bitstream| {
        // at() throws on the first byte past the end, after the bytes
        // before it were read in.
        bitstreamIndex := |bitstream|;
        return None;
      }
      var bits := ReadWhole(numBits, numBytesToLoad);
      r := Some(bits);
    }

    /** The load path when the bytes are there. */
    method ReadWhole(numBits: nat, numBytesToLoad: nat) returns (bits: U32)
      requires Valid() && numHeldBits < numBits <= 32
      requires numBytesToLoad == (numBits - numHeldBits - 1) / 8 + 1
      requires bitstreamIndex + numBytesToLoad <= |bitstream|
      modifies this
      ensures Valid() && bitstreamIndex == old(bitstreamIndex) + numBytesToLoad
      ensures numHeldBits == (32 - (numBits - old(numHeldBits))) % 8
      ensures bits == Value(old(Remaining())[..numBits]) && Remaining() == old(Remaining())[numBits..]
    {
      var h := numHeldBits;
      var n := numBits - numHeldBits;
      var numNextHeldBits := (32 - n) % 8;
      ghost var loaded := bitstream[bitstreamIndex..bitstreamIndex + numBytesToLoad];
      ghost var rest := bitstream[bitstreamIndex + numBytesToLoad..];
      assert bitstream[bitstreamIndex..] == loaded + rest;
      LoadWidth(n, numBytesToLoad, numNextHeldBits);
      ReadWholeValue(Remaining(), heldBits, h, n, numNextHeldBits, loaded, rest);
      var alignedWord := LoadAlignedWord(numBytesToLoad);
      // bits = (heldBits & ~(0xff << held)) << n; bits |= alignedWord >> next:
      // the two parts occupy disjoint bits, so the OR is a sum.
      bits := Shl(Low(heldBits, h), n) + Shr(alignedWord, numNextHeldBits);
      numHeldBits := numNextHeldBits;
      heldBits := LowByte(alignedWord);
    }

    /** The fall-through switch of read(): numBytes bytes from the index,
        the first one most significant. */
    method LoadAlignedWord(numBytes: nat) returns (alignedWord: nat)
      requires Valid() && 1 <= numBytes <= 4 && bitstreamIndex + numBytes <= |bitstream|
      modifies this`bitstreamIndex
      ensures Valid() && bitstreamIndex == old(bitstreamIndex) + numBytes
      ensures alignedWord == BEWord(bitstream[old(bitstreamIndex)..bitstreamIndex])
    {
      ghost var start := bitstreamIndex;
      ghost var end := start + numBytes;
      ghost var target := BEWord(bitstream[start..end]);
      alignedWord := 0;
      var b: Byte;
      if numBytes >= 4 {
        LoadStep(bitstream, bitstreamIndex, end, alignedWord, 24, target);
        b := ReadIn();
        alignedWord := alignedWord + Shl(b, 24);
      }
      if numBytes >= 3 {
        LoadStep(bitstream, bitstreamIndex, end, alignedWord, 16, target);
        b := ReadIn();
        alignedWord := alignedWord + Shl(b, 16);
      }
      if numBytes >= 2 {
        LoadStep(bitstream, bitstreamIndex, end, alignedWord, 8, target);
        b := ReadIn();
        alignedWord := alignedWord + Shl(b, 8);
      }
      LoadStep(bitstream, bitstreamIndex, end, alignedWord, 0, target);
      b := ReadIn();
      alignedWord := alignedWord + b;
    }

    /** readIn: the byte at the index, which then advances. */
    method ReadIn() returns (b: Byte)
      requires Valid() && bitstreamIndex < |bitstream|
      modifies this`bitstreamIndex
      ensures Valid() && bitstreamIndex == old(bitstreamIndex) + 1 && b == bitstream[old(bitstreamIndex)]
    {
      b := bitstream[bitstreamIndex];
      bitstreamIndex := bitstreamIndex + 1;
    }

    /** readByte: read(8). */
    method ReadByte() returns (r: Option<Byte>)
      requires Valid()
      modifies this
      ensures Valid()
      ensures 8 <= |old(Remaining())| ==>
                r == Some(Value(old(Remaining())[..8])) && Remaining() == old(Remaining())[8..]
      ensures 8 > |old(Remaining())| ==> r == None
    {
      ghost var before := Remaining();
      var bits := Read(8);
      if bits.Some? {
        assert Value(before[..8]) < Pow2(|before[..8]|);
        assert Pow2(8) == 0x100;
        return Some(bits.value);
      }
      return None;
    }
  }

  /** ceil(n / 8) bytes hold the n bits and (32 - n) % 8 more. */
  lemma LoadWidth(n: nat, q: nat, next: nat)
    requires 0 < n <= 32 && q == (n - 1) / 8 + 1 && next == (32 - n) % 8
    ensures 1 <= q <= 4 && 8 * q == n + next && next < 8
  {
  }

  /** The bytes are there exactly when the unread bits cover the read. */
  lemma LoadCounts(h: nat, n: nat, q: nat, avail: nat)
    requires 0 < n && q == (n - 1) / 8 + 1
    ensures q <= avail <==> h + n <= h + 8 * avail
  {
  }

  /** One byte of the load ORed in at its place: what is left to load
      shrinks by that byte. */
  lemma LoadStep(bs: seq<Byte>, i: nat, end: nat, aw: nat, shift: nat, target: nat)
    requires i < end <= |bs| && shift == 8 * (end - i - 1) && aw + BEWord(bs[i..end]) == target
    ensures aw + Shl(bs[i], shift) + BEWord(bs[i + 1..end]) == target
    ensures i + 1 == end ==> aw + Shl(bs[i], shift) == target
  {
    assert bs[i..end][1..] == bs[i + 1..end];
  }

  /** The bits a writer produced come back: an n-bit read at a position
      where the bits of v < 2^n are next returns v. */
  lemma ReadReturnsWritten(remaining: seq<bool>, v: nat, n: nat, rest: seq<bool>)
    requires v < Pow2(n) && remaining == BitsOf(v, n) + rest
    ensures n <= |remaining| && Value(remaining[..n]) == v && remaining[n..] == rest
  {
    assert remaining[..n] == BitsOf(v, n);
    ValueOfBitsOf(v, n);
  }

  /** The vector of bit_input_stream_test.cpp: {0xFF} reads back 0xFF. */
  method ReadByteOfFF() returns (r: Option<Byte>)
    ensures r == Some(0xFF)
  {
    var stream := new BitInputStream([0xFF]);
    assert BytesBits([0xFF]) == BitsOf(0xFF, 8) + BytesBits([]);
    assert Pow2(8) == 0x100;
    ReadReturnsWritten(stream.Remaining(), 0xFF, 8, []);
    r := stream.ReadByte();
  }
}
