// BitOutputStream and BitInputStream: bits written most significant first
// into, and read back out of, a byte vector. The 32-bit unsigned shifts and
// masks of the C++ code are multiplications, divisions and remainders by
// powers of two; `|` is BitOr.
module BitStreams {
  import opened Bytes
  import opened BitSeqs

  // ---------------------------------------------------------------------------
  // The arithmetic of BitOutputStream::write

  /** The h bits an output stream holds, kept at the top of its byte. */
  function HeldTop(held: Byte, h: nat): (r: seq<bool>)
    requires h <= 8
    ensures |r| == h
  {
    BitsOf(Shr(held, 8 - h), h)
  }

  /** Fewer than 8 held bits, every bit below them clear. */
  predicate HeldAligned(held: Byte, h: nat)
  {
    h < 8 && Low(held, 8 - h) == 0
  }

  /** nextHeldBits, for r = numNextHeldBits: the bits shifted left by 8 - r
      in 32 bits, then masked to a byte. */
  function NextHeld(bits: U32, r: nat): Byte
    requires r <= 8
  {
    LowByte(Shl32(bits, 8 - r))
  }

  /** writeBits, for r = numNextHeldBits: the held bits shifted left by
      topword, the multiple of 8 at or below numBits - r, ORed with the new
      bits that complete bytes. */
  function WriteWord(held: Byte, bits: U32, numBits: nat, r: nat): nat
    requires r <= numBits
  {
    BitOr(Shl32(held, (numBits - r) / 8 * 8), Shr(bits, r), 32)
  }

  /** The new bits below the last byte boundary end up at the top of
      nextHeldBits, with nothing under them. */
  lemma NextHeldValue(bits: U32, r: nat)
    requires r < 8
    ensures NextHeld(bits, r) == Shl(Low(bits, r), 8 - r)
    ensures HeldTop(NextHeld(bits, r), r) == BitsOf(Low(bits, r), r)
    ensures HeldAligned(NextHeld(bits, r), r)
  {
    var s := 8 - r;
    LowLow(Shl(bits, s), 32, 8);
    LowOfShlSplit(bits, r, s, 8);
    ShrShl(Low(bits, r), s);
  }

  /** A held byte is its held bits shifted back up by 8 - h. */
  lemma HeldValue(held: Byte, h: nat)
    requires HeldAligned(held, h)
    ensures held == Shl(Shr(held, 8 - h), 8 - h)
    ensures Shr(held, 8 - h) < Pow2(h)
  {
    Decompose(held, 8 - h);
    assert Pow2(8) == 0x100;
    ShrBound(held, 8, 8 - h, h);
  }

  /** The held bits shifted left by topword sit right above the
      numBits - r new bits that complete the last byte. */
  lemma HeldShifted(held: Byte, h: nat, numBits: nat, q: nat, r: nat)
    requires HeldAligned(held, h) && numBits <= 32
    requires 8 * q + r == h + numBits && r < 8 && q >= 1
    ensures r <= numBits
    ensures Shl32(held, (numBits - r) / 8 * 8) == Shl(Shr(held, 8 - h), numBits - r)
    ensures Shl(Shr(held, 8 - h), numBits - r) < Pow2(32)
  {
    var k: nat := numBits - r;
    HeldValue(held, h);
    Shl32Fits(Shr(held, 8 - h), h, k);
    if h == 0 {
      HeldShiftedEmpty(held, k, q);
    } else {
      DivModUnique(k, 8, q - 1, 8 - h);
      ShlShl(Shr(held, 8 - h), 8 - h, (q - 1) * 8, k);
    }
  }

  /** With no bits held the byte is 0 and so is every shift of it. */
  lemma HeldShiftedEmpty(held: Byte, k: nat, q: nat)
    requires HeldAligned(held, 0) && k == 8 * q
    ensures Shl32(held, k / 8 * 8) == Shl(Shr(held, 8), k)
  {
    HeldValue(held, 0);
    assert Shr(held, 8) == 0;
    ShlZero(8);
    ShlZero(k);
    ShlZero(k / 8 * 8);
    LowZero(32);
  }

  /** writeBits is the held bits followed by the new bits that complete
      bytes: the OR never overlaps. */
  lemma WriteWordValue(held: Byte, h: nat, bits: U32, numBits: nat, q: nat, r: nat)
    requires HeldAligned(held, h) && numBits <= 32
    requires 8 * q + r == h + numBits && r < 8 && q >= 1
    requires bits < Pow2(numBits)
    ensures r <= numBits
    ensures WriteWord(held, bits, numBits, r) == Shl(Shr(held, 8 - h), numBits - r) + Shr(bits, r)
  {
    var k: nat := numBits - r;
    var hv := Shr(held, 8 - h);
    HeldShifted(held, h, numBits, q, r);
    ShrShl(hv, k);
    ShrBound(bits, numBits, r, k);
    BitOrDisjoint(Shl(hv, k), Shr(bits, r), k, 32);
  }

  /** Enough bits for a byte: the bytes written out, then the bits held,
      spell the bits held before followed by the new ones. */
  lemma WriteCompletesBytes(held: Byte, h: nat, bits: U32, numBits: nat, q: nat, r: nat)
    requires HeldAligned(held, h) && numBits <= 32
    requires 8 * q + r == h + numBits && r < 8 && q >= 1
    requires bits < Pow2(numBits)
    ensures r <= numBits
    ensures BytesBits(BEBytes(WriteWord(held, bits, numBits, r), q)) + HeldTop(NextHeld(bits, r), r)
            == HeldTop(held, h) + BitsOf(bits, numBits)
  {
    var k: nat := numBits - r;
    var w := WriteWord(held, bits, numBits, r);
    WriteWordBits(held, h, bits, numBits, q, r);
    BytesBitsOfBEBytes(w, q);
    NextHeldValue(bits, r);
    BitsOfSplit(bits, k, r, numBits);
    Reassociate(BytesBits(BEBytes(w, q)), HeldTop(held, h), BitsOf(Shr(bits, r), k),
                HeldTop(NextHeld(bits, r), r), BitsOf(bits, numBits));
  }

  /** The word written out spells the held bits, then the new bits that
      complete its bytes. */
  lemma WriteWordBits(held: Byte, h: nat, bits: U32, numBits: nat, q: nat, r: nat)
    requires HeldAligned(held, h) && numBits <= 32
    requires 8 * q + r == h + numBits && r < 8 && q >= 1
    requires bits < Pow2(numBits)
    ensures r <= numBits
    ensures BitsOf(WriteWord(held, bits, numBits, r), 8 * q) == HeldTop(held, h) + BitsOf(Shr(bits, r), numBits - r)
  {
    var k: nat := numBits - r;
    WriteWordValue(held, h, bits, numBits, q, r);
    ShrBound(bits, numBits, r, k);
    BitsOfConcat(Shr(held, 8 - h), Shr(bits, r), h, k, 8 * q);
  }

  /** (a + b) + c == a + (b + c), with every part named by the caller. */
  lemma Reassociate(x: seq<bool>, a: seq<bool>, b: seq<bool>, c: seq<bool>, y: seq<bool>)
    requires x == a + b && y == b + c
    ensures x + c == a + y
  {
  }

  /** With the new bits below 2^numBits and numBits <= r, nextHeldBits is
      the bits shifted left by 8 - r. */
  lemma NextHeldSmall(bits: U32, numBits: nat, r: nat)
    requires bits < Pow2(numBits) && numBits <= r < 8
    ensures NextHeld(bits, r) == Shl(bits, 8 - r)
  {
    NextHeldValue(bits, r);
    Pow2Monotone(numBits, r);
    LowSmall(bits, r);
  }

  /** ORing a shifted value into a byte whose bits meet it exactly. */
  lemma OrJoin(held: Byte, hi: nat, bits: nat, s: nat, m: nat, next: nat)
    requires held == Shl(hi, s) && Low(held, m) == 0 && m <= 8
    requires next == Shl(bits, s) && next < Pow2(m)
    ensures BitOr(held, next, 8) == Shl(hi + bits, s)
  {
    assert Pow2(8) == 0x100;
    BitOrDisjoint(held, next, m, 8);
    ShlAdd(hi, bits, s);
  }

  /** The held value hv at the top of its t bits, ORed with numBits new bits
      shifted up by s = t - numBits. */
  lemma OrBelow(held: Byte, hv: nat, bits: nat, next: nat, numBits: nat, s: nat, t: nat)
    requires held == Shl(hv, t) && Low(held, t) == 0 && t <= 8 && numBits + s == t
    requires next == Shl(bits, s) && bits < Pow2(numBits)
    ensures BitOr(held, next, 8) == Shl(Shl(hv, numBits) + bits, s)
  {
    ShlShl(hv, numBits, s, t);
    ShlBound(bits, numBits, s, t);
    OrJoin(held, Shl(hv, numBits), bits, s, t, next);
  }

  /** A byte holding v at its top holds the bits of v. */
  lemma HeldTopOfShifted(x: Byte, v: nat, r: nat)
    requires r <= 8 && x == Shl(v, 8 - r)
    ensures HeldTop(x, r) == BitsOf(v, r)
  {
    ShrShl(v, 8 - r);
  }

  /** A byte holding the held bits followed by numBits new ones at its top
      spells them in that order. */
  lemma HeldTopJoin(x: Byte, held: Byte, h: nat, bits: nat, numBits: nat, r: nat)
    requires h <= 8 && r == h + numBits && r <= 8 && bits < Pow2(numBits)
    requires x == Shl(Shl(Shr(held, 8 - h), numBits) + bits, 8 - r)
    ensures HeldTop(x, r) == HeldTop(held, h) + BitsOf(bits, numBits)
  {
    var hv := Shr(held, 8 - h);
    HeldTopOfShifted(x, Shl(hv, numBits) + bits, r);
    BitsOfConcat(hv, bits, h, numBits, r);
  }

  /** Too few bits for a byte: the new bits join the held ones. */
  lemma WriteHolds(held: Byte, h: nat, bits: U32, numBits: nat, r: nat)
    requires HeldAligned(held, h) && r == h + numBits && r < 8
    requires bits < Pow2(numBits)
    ensures HeldTop(BitOr(held, NextHeld(bits, r), 8), r) == HeldTop(held, h) + BitsOf(bits, numBits)
  {
    NextHeldSmall(bits, numBits, r);
    HeldValue(held, h);
    OrBelow(held, Shr(held, 8 - h), bits, NextHeld(bits, r), numBits, 8 - r, 8 - h);
    HeldTopJoin(BitOr(held, NextHeld(bits, r), 8), held, h, bits, numBits, r);
  }

  /** Held bits stay aligned whatever is written, the bits above numBits
      included. */
  lemma WriteKeepsAligned(held: Byte, h: nat, bits: U32, numBits: nat, r: nat)
    requires HeldAligned(held, h) && r == h + numBits && r < 8
    ensures HeldAligned(BitOr(held, NextHeld(bits, r), 8), r)
  {
    var s := 8 - r;
    var hv := Shr(held, 8 - h);
    HeldValue(held, h);
    NextHeldValue(bits, r);
    ShlShl(hv, numBits, s, 8 - h);
    LowOfShl(Shl(hv, numBits), s, s);
    BitOrLowClear(held, NextHeld(bits, r), s, 8);
  }

  /** writeAlignZero writes the held byte over itself: write(heldBits,
      8 - numHeldBits) emits exactly that byte. */
  lemma AlignWriteEmitsHeld(held: Byte, h: nat)
    requires HeldAligned(held, h) && h > 0
    ensures BEBytes(WriteWord(held, held, 8 - h, 0), 1) == [held]
  {
    assert (8 - h - 0) / 8 * 8 == 0;
    assert Pow2(8) == 0x100;
    Pow2Of32();
    Pow2Monotone(8, 32);
    LowSmall(held, 32);
    BitOrSelf(held, 32);
    LowSmall(held, 8);
  }

  /** The emitted byte spells the held bits followed by zeros. */
  lemma AlignPads(held: Byte, h: nat)
    requires HeldAligned(held, h)
    ensures BytesBits([held]) == HeldTop(held, h) + BitsOf(0, 8 - h)
  {
    assert BytesBits([held]) == BitsOf(held, 8) + BytesBits([]);
    BitsOfSplit(held, h, 8 - h, 8);
  }

  /** Concatenation regrouped: the caller's terms are the arguments, so the
      regrouping is shown apart from any arithmetic. */
  lemma Regroup(a: seq<bool>, b: seq<bool>, ab: seq<bool>, c: seq<bool>, d: seq<bool>, e: seq<bool>)
    requires ab == a + b && b + c == d + e
    ensures ab + c == a + d + e
  {
    assert ab + c == a + (b + c);
    assert a + (d + e) == a + d + e;
  }

  /** write with fewer than 8 bits in all: nothing is emitted, the new bits
      join the held ones and stay aligned. */
  lemma HoldStep(bs: seq<Byte>, held: Byte, h: nat, bits: U32, numBits: nat, r: nat)
    requires HeldAligned(held, h) && r == h + numBits && r < 8
    ensures BitOr(held, NextHeld(bits, r), 8) < 0x100
    ensures HeldAligned(BitOr(held, NextHeld(bits, r), 8), r)
    ensures bits < Pow2(numBits) ==>
              BytesBits(bs) + HeldTop(BitOr(held, NextHeld(bits, r), 8), r)
              == BytesBits(bs) + HeldTop(held, h) + BitsOf(bits, numBits)
  {
    assert Pow2(8) == 0x100;
    WriteKeepsAligned(held, h, bits, numBits, r);
    if bits < Pow2(numBits) {
      WriteHolds(held, h, bits, numBits, r);
    }
  }

  /** The byte count and the bits left over when write has at least 8 bits
      in all: one to four bytes go out. */
  lemma EmitCounts(h: nat, numBits: nat, q: nat, r: nat)
    requires h < 8 && numBits <= 32 && h + numBits >= 8
    requires q == (h + numBits) / 8 && r == (h + numBits) % 8
    ensures 8 * q + r == h + numBits && 1 <= q <= 4 && r < 8 && r <= numBits
  {
  }

  /** write with at least 8 bits in all: the bytes emitted, then the bits
      held, spell the bits before followed by the new ones. */
  lemma EmitStep(bs: seq<Byte>, held: Byte, h: nat, bits: U32, numBits: nat, q: nat, r: nat)
    requires HeldAligned(held, h) && numBits <= 32
    requires 8 * q + r == h + numBits && r < 8 && q >= 1
    ensures r <= numBits
    ensures HeldAligned(NextHeld(bits, r), r)
    ensures bits < Pow2(numBits) ==>
              BytesBits(bs + BEBytes(WriteWord(held, bits, numBits, r), q)) + HeldTop(NextHeld(bits, r), r)
              == BytesBits(bs) + HeldTop(held, h) + BitsOf(bits, numBits)
  {
    NextHeldValue(bits, r);
    if bits < Pow2(numBits) {
      var emitted := BEBytes(WriteWord(held, bits, numBits, r), q);
      WriteCompletesBytes(held, h, bits, numBits, q, r);
      BytesBitsAppend(bs, emitted);
      Regroup(BytesBits(bs), BytesBits(emitted), BytesBits(bs + emitted), HeldTop(NextHeld(bits, r), r),
              HeldTop(held, h), BitsOf(bits, numBits));
    }
  }

  /** With no bits held the byte is 0. */
  lemma AlignedEmpty(held: Byte)
    requires HeldAligned(held, 0)
    ensures held == 0
  {
    assert Pow2(8) == 0x100;
    LowSmall(held, 8);
  }

  /** held | next, as an unsigned char. */
  function OrByte(held: Byte, next: Byte): (r: Byte)
    ensures r == BitOr(held, next, 8)
  {
    assert Pow2(8) == 0x100;
    BitOr(held, next, 8)
  }

  /** writeAlignZero with h > 0 bits held: the held byte goes out as it is,
      and what is written gains 8 - h zeros. */
  lemma AlignStep(bs: seq<Byte>, held: Byte, h: nat)
    requires HeldAligned(held, h) && h > 0
    ensures HeldAligned(0, 0)
    ensures BytesBits(bs + [held]) + HeldTop(0, 0) == BytesBits(bs) + HeldTop(held, h) + BitsOf(0, 8 - h)
  {
    AlignPads(held, h);
    LowZero(8);
    BytesBitsAppend(bs, [held]);
    Regroup(BytesBits(bs), BytesBits([held]), BytesBits(bs + [held]), HeldTop(0, 0),
            HeldTop(held, h), BitsOf(0, 8 - h));
  }

  class BitOutputStream {
    var bitstream: seq<Byte>
    var heldBits: Byte
    var numHeldBits: nat

    ghost predicate Valid()
      reads this
    {
      HeldAligned(heldBits, numHeldBits)
    }

    /** Every bit written so far: the bytes emitted, then the bits held. */
    ghost function Bits(): seq<bool>
      reads this
      requires Valid()
    {
      BytesBits(bitstream) + HeldTop(heldBits, numHeldBits)
    }

    /** The stream appends to the vector it is given. */
    constructor (initial: seq<Byte>)
      ensures bitstream == initial && heldBits == 0 && numHeldBits == 0
      ensures Valid() && Bits() == BytesBits(initial)
    {
      bitstream := initial;
      heldBits := 0;
      numHeldBits := 0;
    }

    /** write(bits, numBits). The whole bytes among the held and new bits go
        out big-endian (the fall-through switch), the rest is held. */
    method Write(bits: U32, numBits: nat)
      requires Valid() && numBits <= 32
      modifies this
      ensures Valid()
      ensures numHeldBits == (numBits + old(numHeldBits)) % 8
      ensures |bitstream| == |old(bitstream)| + (numBits + old(numHeldBits)) / 8
      ensures bitstream[..|old(bitstream)|] == old(bitstream)
      ensures old(numHeldBits) > 0 && numBits + old(numHeldBits) == 8 && bits == old(heldBits) ==>
                bitstream == old(bitstream) + [old(heldBits)]
      ensures bits < Pow2(numBits) ==> Bits() == old(Bits()) + BitsOf(bits, numBits)
    {
      var numTotalBits := numBits + numHeldBits;
      var numNextHeldBits := numTotalBits % 8;
      var nextHeldBits := NextHeld(bits, numNextHeldBits);
      if numTotalBits < 8 {
        ModSmall(numTotalBits, 8);
        HoldStep(bitstream, heldBits, numHeldBits, bits, numBits, numNextHeldBits);
        heldBits := OrByte(heldBits, nextHeldBits);
        numHeldBits := numNextHeldBits;
        return;
      }

      var numBytes := numTotalBits / 8;
      EmitCounts(numHeldBits, numBits, numBytes, numNextHeldBits);
      var writeBits := WriteWord(heldBits, bits, numBits, numNextHeldBits);
      ghost var before := bitstream;
      AppendBigEndian(writeBits, numBytes);
      EmitStep(before, heldBits, numHeldBits, bits, numBits, numBytes, numNextHeldBits);
      if numHeldBits > 0 && numTotalBits == 8 && bits == heldBits {
        AlignWriteEmitsHeld(heldBits, numHeldBits);
      }
      heldBits := nextHeldBits;
      numHeldBits := numNextHeldBits;
    }

    /** The fall-through switch of write: the low numBytes bytes of w, most
        significant first. */
    method AppendBigEndian(w: nat, numBytes: nat)
      requires 1 <= numBytes <= 4
      modifies this`bitstream
      ensures bitstream == old(bitstream) + BEBytes(w, numBytes)
    {
      BEBytesUpToFour(w, numBytes);
      if numBytes >= 4 {
        bitstream := bitstream + [LowByte(Shr(w, 24))];
      }
      if numBytes >= 3 {
        bitstream := bitstream + [LowByte(Shr(w, 16))];
      }
      if numBytes >= 2 {
        bitstream := bitstream + [LowByte(Shr(w, 8))];
      }
      bitstream := bitstream + [LowByte(w)];
    }

    /** writeAlignZero: pad the held bits with zeros to a whole byte and
        write it out. */
    method WriteAlignZero()
      requires Valid()
      modifies this
      ensures Valid() && heldBits == 0 && numHeldBits == 0
      ensures old(numHeldBits) == 0 ==> bitstream == old(bitstream)
      ensures old(numHeldBits) > 0 ==> bitstream == old(bitstream) + [old(heldBits)]
      ensures old(numHeldBits) > 0 ==> Bits() == old(Bits()) + BitsOf(0, 8 - old(numHeldBits))
    {
      if numHeldBits == 0 {
        AlignedEmpty(heldBits);
        return;
      }
      ghost var bs, held, h := bitstream, heldBits, numHeldBits;
      AlignStep(bs, held, h);
      WriteHeldByte();
    }

    /** The padding write of writeAlignZero, with bits held: write(heldBits,
        8 - numHeldBits), then the held bits are cleared. */
    method WriteHeldByte()
      requires Valid() && numHeldBits > 0
      modifies this
      ensures Valid() && heldBits == 0 && numHeldBits == 0
      ensures bitstream == old(bitstream) + [old(heldBits)]
    {
      Write(heldBits, 8 - numHeldBits);
      heldBits := 0x00;
      numHeldBits := 0;
    }

    /** flush is writeAlignZero. */
    method Flush()
      requires Valid()
      modifies this
      ensures Valid() && heldBits == 0 && numHeldBits == 0
      ensures old(numHeldBits) == 0 ==> bitstream == old(bitstream)
      ensures old(numHeldBits) > 0 ==> bitstream == old(bitstream) + [old(heldBits)]
      ensures old(numHeldBits) > 0 ==> Bits() == old(Bits()) + BitsOf(0, 8 - old(numHeldBits))
    {
      WriteAlignZero();
    }
  }
}
