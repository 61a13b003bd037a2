// Bit strings, most significant bit first, and the shifts and masks the bit
// streams are made of. `x << n`, `x >> n` and `x & (2^n - 1)` on naturals are
// Shl, Shr and Low; a 32-bit unsigned shift is Shl32; `|` is BitOr.
module BitSeqs {
  import opened Bytes

  // ---------------------------------------------------------------------------
  // Shifts and masks

  /** x << n, without a width. */
  function Shl(x: nat, n: nat): nat
  {
    if n == 0 then x else 2 * Shl(x, n - 1)
  }

  /** x >> n. */
  function Shr(x: nat, n: nat): nat
  {
    if n == 0 then x else Shr(x / 2, n - 1)
  }

  /** x & (2^n - 1): the low n bits. */
  function Low(x: nat, n: nat): nat
  {
    if n == 0 then 0 else 2 * Low(x / 2, n - 1) + x % 2
  }

  /** x << n in a 32-bit unsigned int. */
  function Shl32(x: nat, n: nat): (r: U32)
    ensures r == Low(Shl(x, n), 32)
  {
    LowBound(Shl(x, n), 32);
    Pow2Of32();
    Low(Shl(x, n), 32)
  }

  /** x & 0xff, as an unsigned char. */
  function LowByte(x: nat): (r: Byte)
    ensures r == Low(x, 8)
  {
    LowBound(x, 8);
    assert Pow2(8) == 0x100;
    Low(x, 8)
  }

  /** Bitwise OR of the low n bits of a and b. */
  function BitOr(a: nat, b: nat, n: nat): (r: nat)
    ensures r < Pow2(n)
  {
    if n == 0 then 0
    else 2 * BitOr(a / 2, b / 2, n - 1) + (if a % 2 == 1 || b % 2 == 1 then 1 else 0)
  }

  /** 2^32 = 256^4, without unfolding Pow2 32 times. */
  lemma Pow2Of32()
    ensures Pow2(32) == TWO_32
  {
    var bytes := 4;
    Pow2Pow256(bytes);
    WordModIsPow256(bytes);
  }

  lemma {:induction false} LowBound(x: nat, n: nat)
    ensures Low(x, n) < Pow2(n)
  {
    if n > 0 {
      LowBound(x / 2, n - 1);
    }
  }

  /** x < 2^a shifted left by b stays below 2^(a+b). */
  lemma {:induction false} ShlBound(x: nat, a: nat, b: nat, n: nat)
    requires x < Pow2(a) && a + b == n
    ensures Shl(x, b) < Pow2(n)
  {
    if b > 0 {
      ShlBound(x, a, b - 1, n - 1);
    }
  }

  /** x < 2^m shifted right by a leaves fewer than m - a bits. */
  lemma {:induction false} ShrBound(x: nat, m: nat, a: nat, k: nat)
    requires x < Pow2(m) && a + k == m
    ensures Shr(x, a) < Pow2(k)
  {
    if a > 0 {
      ShrBound(x / 2, m - 1, a - 1, k);
    }
  }

  /** x < 2^a shifted left by b <= 32 - a fits in 32 bits, unchanged by the
      truncation. */
  lemma Shl32Fits(x: nat, a: nat, b: nat)
    requires x < Pow2(a) && a + b <= 32
    ensures Shl(x, b) < Pow2(32) && Shl32(x, b) == Shl(x, b)
  {
    ShlBound(x, a, b, a + b);
    Pow2Monotone(a + b, 32);
    LowSmall(Shl(x, b), 32);
  }

  /** Below 2^n, masking the low n bits changes nothing. */
  lemma {:induction false} LowSmall(x: nat, n: nat)
    requires x < Pow2(n)
    ensures Low(x, n) == x
  {
    if n > 0 {
      LowSmall(x / 2, n - 1);
    }
  }

  /** Below 2^n, shifting right by n leaves 0. */
  lemma {:induction false} ShrSmall(x: nat, n: nat)
    requires x < Pow2(n)
    ensures Shr(x, n) == 0
  {
    if n > 0 {
      ShrSmall(x / 2, n - 1);
    }
  }

  lemma {:induction false} ShlZero(n: nat)
    ensures Shl(0, n) == 0
  {
    if n > 0 {
      ShlZero(n - 1);
    }
  }

  /** x is its bits above n shifted back, plus its low n bits. */
  lemma {:induction false} Decompose(x: nat, n: nat)
    ensures x == Shl(Shr(x, n), n) + Low(x, n)
  {
    if n > 0 {
      Decompose(x / 2, n - 1);
    }
  }

  /** Shifting left by n and adding lo < 2^n is undone by >> n and & (2^n-1). */
  lemma {:induction false} Recompose(hi: nat, lo: nat, n: nat)
    requires lo < Pow2(n)
    ensures Shr(Shl(hi, n) + lo, n) == hi && Low(Shl(hi, n) + lo, n) == lo
  {
    if n > 0 {
      var x := Shl(hi, n) + lo;
      assert x / 2 == Shl(hi, n - 1) + lo / 2 && x % 2 == lo % 2;
      Recompose(hi, lo / 2, n - 1);
    }
  }

  lemma ShrShl(x: nat, n: nat)
    ensures Shr(Shl(x, n), n) == x && Low(Shl(x, n), n) == 0
  {
    Recompose(x, 0, n);
  }

  lemma {:induction false} ShrShr(x: nat, a: nat, b: nat, n: nat)
    requires a + b == n
    ensures Shr(Shr(x, a), b) == Shr(x, n)
  {
    if a > 0 {
      ShrShr(x / 2, a - 1, b, n - 1);
    }
  }

  lemma {:induction false} ShlShl(x: nat, a: nat, b: nat, n: nat)
    requires a + b == n
    ensures Shl(Shl(x, a), b) == Shl(x, n)
  {
    if b > 0 {
      ShlShl(x, a, b - 1, n - 1);
    }
  }

  lemma {:induction false} ShlAdd(x: nat, y: nat, n: nat)
    ensures Shl(x + y, n) == Shl(x, n) + Shl(y, n)
  {
    if n > 0 {
      ShlAdd(x, y, n - 1);
    }
  }

  /** Masking to m bits, then to n <= m, is masking to n. */
  lemma {:induction false} LowLow(x: nat, m: nat, n: nat)
    requires n <= m
    ensures Low(Low(x, m), n) == Low(x, n)
  {
    if n > 0 {
      var y := Low(x, m);
      assert y / 2 == Low(x / 2, m - 1) && y % 2 == x % 2;
      LowLow(x / 2, m - 1, n - 1);
    }
  }

  /** Shifting left by k clears the low n <= k bits. */
  lemma {:induction false} LowOfShl(x: nat, k: nat, n: nat)
    requires n <= k
    ensures Low(Shl(x, k), n) == 0
  {
    if n > 0 {
      var y := Shl(x, k);
      assert y / 2 == Shl(x, k - 1) && y % 2 == 0;
      LowOfShl(x, k - 1, n - 1);
    }
  }

  /** x << s split at bit n = r + s: the bits of x above r land at n and
      up, its low r bits below n. */
  lemma ShlSplit(x: nat, r: nat, s: nat, n: nat)
    requires r + s == n
    ensures Shl(x, s) == Shl(Shr(x, r), n) + Shl(Low(x, r), s)
  {
    Decompose(x, r);
    ShlAdd(Shl(Shr(x, r), r), Low(x, r), s);
    ShlShl(Shr(x, r), r, s, n);
  }

  /** (x << s) & (2^n - 1) == (x & (2^r - 1)) << s, for r + s == n. */
  lemma LowOfShlSplit(x: nat, r: nat, s: nat, n: nat)
    requires r + s == n
    ensures Low(Shl(x, s), n) == Shl(Low(x, r), s)
    ensures Shl(Low(x, r), s) < Pow2(n)
  {
    ShlSplit(x, r, s, n);
    LowBound(x, r);
    ShlBound(Low(x, r), r, s, n);
    Recompose(Shr(x, r), Shl(Low(x, r), s), n);
  }

  // ---------------------------------------------------------------------------
  // Bit strings

  /** The low n bits of v, most significant first. */
  function BitsOf(v: nat, n: nat): (r: seq<bool>)
    ensures |r| == n
  {
    if n == 0 then [] else BitsOf(v / 2, n - 1) + [v % 2 == 1]
  }

  /** The number a bit string spells, most significant bit first. */
  function Value(bits: seq<bool>): (v: nat)
    ensures v < Pow2(|bits|)
  {
    if bits == [] then 0
    else 2 * Value(bits[..|bits| - 1]) + (if bits[|bits| - 1] then 1 else 0)
  }

  /** The bits of a byte string, every byte most significant bit first. */
  function BytesBits(bs: seq<Byte>): (r: seq<bool>)
    ensures |r| == 8 * |bs|
  {
    if bs == [] then [] else BitsOf(bs[0], 8) + BytesBits(bs[1..])
  }

  /** The big-endian bytes of the low 8q bits of w. */
  function BEBytes(w: nat, q: nat): (r: seq<Byte>)
    ensures |r| == q
    decreases q
  {
    if q == 0 then [] else BEBytes(Shr(w, 8), q - 1) + [LowByte(w)]
  }

  lemma {:induction false} ValueOfBitsOf(v: nat, n: nat)
    requires v < Pow2(n)
    ensures Value(BitsOf(v, n)) == v
  {
    if n > 0 {
      ValueOfBitsOf(v / 2, n - 1);
      assert BitsOf(v, n)[..n - 1] == BitsOf(v / 2, n - 1);
    }
  }

  lemma {:induction false} BitsOfValue(bits: seq<bool>)
    ensures BitsOf(Value(bits), |bits|) == bits
  {
    if bits != [] {
      var init := bits[..|bits| - 1];
      BitsOfValue(init);
      var v := Value(bits);
      DivModUnique(v, 2, Value(init), if bits[|bits| - 1] then 1 else 0);
      assert bits == init + [bits[|bits| - 1]];
    }
  }

  /** Two numbers below 2^n with the same n bits are equal. */
  lemma BitsOfInjective(a: nat, b: nat, n: nat)
    requires a < Pow2(n) && b < Pow2(n) && BitsOf(a, n) == BitsOf(b, n)
    ensures a == b
  {
    ValueOfBitsOf(a, n);
    ValueOfBitsOf(b, n);
  }

  /** The bits of x split at b: the bits above, then the low b bits. */
  lemma {:induction false} BitsOfSplit(x: nat, a: nat, b: nat, n: nat)
    requires a + b == n
    ensures BitsOf(x, n) == BitsOf(Shr(x, b), a) + BitsOf(Low(x, b), b)
  {
    if b > 0 {
      BitsOfSplit(x / 2, a, b - 1, n - 1);
      var l := Low(x, b);
      assert l / 2 == Low(x / 2, b - 1) && l % 2 == x % 2;
    }
  }

  /** Bin i of n is bit n - 1 - i: the `(input >> (n - i - 1)) & 1` of a
      most-significant-first loop. */
  lemma {:induction false} BitsOfIndex(v: nat, n: nat, i: nat)
    requires i < n
    ensures BitsOf(v, n)[i] == (Shr(v, n - 1 - i) % 2 == 1)
  {
    if i < n - 1 {
      BitsOfIndex(v / 2, n - 1, i);
      assert Shr(v, n - 1 - i) == Shr(v / 2, n - 2 - i);
    }
  }

  /** Only the low n bits matter. */
  lemma {:induction false} BitsOfLow(x: nat, m: nat, n: nat)
    requires n <= m
    ensures BitsOf(Low(x, m), n) == BitsOf(x, n)
  {
    if n > 0 {
      var y := Low(x, m);
      assert y / 2 == Low(x / 2, m - 1) && y % 2 == x % 2;
      BitsOfLow(x / 2, m - 1, n - 1);
    }
  }

  /** hi's a bits followed by lo's b bits. */
  lemma BitsOfConcat(hi: nat, lo: nat, a: nat, b: nat, n: nat)
    requires lo < Pow2(b) && a + b == n
    ensures BitsOf(Shl(hi, b) + lo, n) == BitsOf(hi, a) + BitsOf(lo, b)
  {
    BitsOfSplit(Shl(hi, b) + lo, a, b, n);
    Recompose(hi, lo, b);
  }

  lemma {:induction false} BytesBitsAppend(a: seq<Byte>, b: seq<Byte>)
    ensures BytesBits(a + b) == BytesBits(a) + BytesBits(b)
  {
    if a != [] {
      assert (a + b)[0] == a[0] && (a + b)[1..] == a[1..] + b;
      BytesBitsAppend(a[1..], b);
    } else {
      assert a + b == b;
    }
  }

  /** The big-endian bytes of w spell its low 8q bits. */
  lemma {:induction false} BytesBitsOfBEBytes(w: nat, q: nat)
    ensures BytesBits(BEBytes(w, q)) == BitsOf(w, 8 * q)
    decreases q
  {
    if q > 0 {
      BytesBitsOfBEBytes(Shr(w, 8), q - 1);
      BytesBitsAppend(BEBytes(Shr(w, 8), q - 1), [LowByte(w)]);
      assert BytesBits([LowByte(w)]) == BitsOf(Low(w, 8), 8);
      BitsOfLow(w, 8, 8);
      BitsOfSplit(w, 8 * (q - 1), 8, 8 * q);
    }
  }

  /** Up to four big-endian bytes, written out byte by byte as
      (w >> 24) & 0xff, (w >> 16) & 0xff, (w >> 8) & 0xff and w & 0xff. */
  lemma BEBytesUpToFour(w: nat, q: nat)
    requires 1 <= q <= 4
    ensures BEBytes(w, q) ==
              (if q >= 4 then [LowByte(Shr(w, 24))] else []) +
              (if q >= 3 then [LowByte(Shr(w, 16))] else []) +
              (if q >= 2 then [LowByte(Shr(w, 8))] else []) +
              [LowByte(w)]
  {
    ShrShr(w, 8, 8, 16);
    ShrShr(w, 16, 8, 24);
    if q >= 2 {
      assert BEBytes(Shr(w, 8), q - 1)[q - 2] == LowByte(Shr(w, 8));
    }
    if q >= 3 {
      assert BEBytes(Shr(Shr(w, 8), 8), q - 2)[q - 3] == LowByte(Shr(w, 16));
    }
  }

  // ---------------------------------------------------------------------------
  // OR

  lemma {:induction false} BitOrZero(a: nat, n: nat)
    requires a < Pow2(n)
    ensures BitOr(a, 0, n) == a
  {
    if n > 0 {
      BitOrZero(a / 2, n - 1);
    }
  }

  /** ORing a number whose low k bits are clear with one below 2^k adds them. */
  lemma {:induction false} BitOrDisjoint(a: nat, b: nat, k: nat, n: nat)
    requires a < Pow2(n) && Low(a, k) == 0 && b < Pow2(k) && k <= n
    ensures BitOr(a, b, n) == a + b
  {
    if k == 0 {
      BitOrZero(a, n);
    } else {
      BitOrDisjoint(a / 2, b / 2, k - 1, n - 1);
    }
  }

  lemma {:induction false} BitOrSelf(a: nat, n: nat)
    requires a < Pow2(n)
    ensures BitOr(a, a, n) == a
  {
    if n > 0 {
      BitOrSelf(a / 2, n - 1);
    }
  }

  lemma {:induction false} LowZero(n: nat)
    ensures Low(0, n) == 0
  {
    if n > 0 {
      LowZero(n - 1);
    }
  }

  /** OR keeps the low k bits clear. */
  lemma {:induction false} BitOrLowClear(a: nat, b: nat, k: nat, n: nat)
    requires Low(a, k) == 0 && Low(b, k) == 0
    ensures Low(BitOr(a, b, n), k) == 0
  {
    if n == 0 {
      LowZero(k);
    } else if k > 0 {
      BitOrLowClear(a / 2, b / 2, k - 1, n - 1);
      var r := BitOr(a, b, n);
      assert r / 2 == BitOr(a / 2, b / 2, n - 1) && r % 2 == 0;
    }
  }
}
