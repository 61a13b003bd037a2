// Equality coding (equality_coding.cpp): a flag per symbol says whether it
// repeats the previous distinct symbol; symbols that do not repeat go to a
// stream of raw values, lowered by one when they exceed the previous symbol
// (they can never equal it, so the value is free).
module EqualityCoding {
  import opened Bytes
  import opened DataBlocks

  /** The two streams the forward transform produces. */
  datatype EqualityCoded = EqualityCoded(raws: seq<U64>, flags: seq<U64>)

  /** The raw value stored for a symbol x that differs from prev. */
  function RawOf(x: U64, prev: U64): (v: U64)
    ensures v <= x
  {
    if x > prev then x - 1 else x
  }

  /** The forward transform from previous symbol `prev` on (the source starts
      from 0). */
  function EqualityForward(s: seq<U64>, prev: U64): (r: EqualityCoded)
    ensures |r.flags| == |s| && |r.raws| <= |s|
  {
    if s == [] then EqualityCoded([], [])
    else if s[0] == prev then
      var rest := EqualityForward(s[1..], prev);
      EqualityCoded(rest.raws, [1] + rest.flags)
    else
      var rest := EqualityForward(s[1..], s[0]);
      EqualityCoded([RawOf(s[0], prev)] + rest.raws, [0] + rest.flags)
  }

  /** Number of zero flags, i.e. raw values the inverse consumes. */
  function ZeroCount(flags: seq<U64>): (n: nat)
    ensures n <= |flags|
  {
    if flags == [] then 0 else (if flags[0] == 0 then 1 else 0) + ZeroCount(flags[1..])
  }

  /** The previous symbol after decoding raw value v (a uint64_t sum). */
  function Restore(v: U64, prev: U64): U64
  {
    if v >= prev then Wrap64(v + 1) else v
  }

  /** inverseTransformEqualityCoding from previous symbol `prev` on: every
      flag writes the previous symbol, truncated to the output word size ws,
      after a zero flag has replaced it from the next raw value. */
  function EqualityInverse(flags: seq<U64>, raws: seq<U64>, prev: U64, ws: nat): (out: seq<U64>)
    requires ZeroCount(flags) <= |raws|
    ensures |out| == |flags|
  {
    if flags == [] then []
    else if flags[0] == 0 then
      var p := Restore(raws[0], prev);
      [Trunc(p, ws)] + EqualityInverse(flags[1..], raws[1..], p, ws)
    else
      [Trunc(prev, ws)] + EqualityInverse(flags[1..], raws, prev, ws)
  }

  /** Flags other than zero all mean "repeat". */
  function Normalized(flags: seq<U64>): (r: seq<U64>)
    ensures |r| == |flags|
  {
    seq(|flags|, i requires 0 <= i < |flags| => if flags[i] == 0 then 0 else 1)
  }

  // ---------------------------------------------------------------------------
  // Properties of the two streams

  /** Flags are 0 or 1, and the transform emits one raw value per zero flag. */
  lemma {:induction false} ForwardShape(s: seq<U64>, prev: U64)
    ensures var r := EqualityForward(s, prev);
            ZeroCount(r.flags) == |r.raws| && Normalized(r.flags) == r.flags
  {
    if s != [] {
      ForwardShape(s[1..], if s[0] == prev then prev else s[0]);
    }
  }

  /** A raw value is below the largest symbol of its stream: a block of word
      size ws can hold every raw value. */
  lemma {:induction false} ForwardRawsBelow(s: seq<U64>, prev: U64, m: nat)
    requires AllBelow(s, m)
    ensures AllBelow(EqualityForward(s, prev).raws, m)
  {
    if s != [] {
      ForwardRawsBelow(s[1..], if s[0] == prev then prev else s[0], m);
    }
  }

  /** The inverse undoes the forward transform on symbols the word holds. */
  lemma {:induction false} InverseOfForward(s: seq<U64>, prev: U64, ws: nat)
    requires AllBelow(s, WordMod(ws)) && prev < WordMod(ws)
    ensures ZeroCount(EqualityForward(s, prev).flags) == |EqualityForward(s, prev).raws|
    ensures EqualityInverse(EqualityForward(s, prev).flags, EqualityForward(s, prev).raws, prev, ws) == s
  {
    ForwardShape(s, prev);
    if s != [] {
      var next := if s[0] == prev then prev else s[0];
      InverseOfForward(s[1..], next, ws);
      if s[0] != prev {
        assert Restore(RawOf(s[0], prev), prev) == s[0];
      }
    }
  }

  /** The forward transform undoes the inverse, given raw values at least
      two below the word modulus (so that v + 1 still fits the word) and
      exactly one raw value per zero flag; flags come back normalized. */
  lemma {:induction false} ForwardOfInverse(flags: seq<U64>, raws: seq<U64>, prev: U64, ws: nat)
    requires ZeroCount(flags) == |raws| && prev < WordMod(ws) && AllBelow(raws, WordMod(ws) - 1)
    ensures EqualityForward(EqualityInverse(flags, raws, prev, ws), prev) == EqualityCoded(raws, Normalized(flags))
  {
    if flags != [] {
      assert Normalized(flags) == [Normalized(flags)[0]] + Normalized(flags[1..]);
      var out := EqualityInverse(flags, raws, prev, ws);
      if flags[0] == 0 {
        var p := Restore(raws[0], prev);
        assert p < WordMod(ws) && p != prev;
        assert RawOf(p, prev) == raws[0];
        ForwardOfInverse(flags[1..], raws[1..], p, ws);
        assert out[1..] == EqualityInverse(flags[1..], raws[1..], p, ws);
        assert raws == [raws[0]] + raws[1..];
      } else {
        ForwardOfInverse(flags[1..], raws, prev, ws);
        assert out[1..] == EqualityInverse(flags[1..], raws, prev, ws);
      }
    }
  }

  // ---------------------------------------------------------------------------
  // The vectors of equality_coding_test.cpp

  lemma ForwardSingleSymbol()
    ensures EqualityForward([42], 0) == EqualityCoded([41], [0])
  {
  }

  lemma InverseVectors()
    ensures EqualityInverse([1], [], 0, 8) == [0]
    ensures EqualityInverse([], [1], 0, 8) == []
    ensures EqualityInverse([0], [41], 0, 8) == [42]
    ensures EqualityInverse([0], [TWO_64 - 42], 0, 8) == [TWO_64 - 41]
  {
  }

  lemma InverseRandomSequence()
    ensures var a: U64 := TWO_64 - 3438430427565543845;
            EqualityInverse([0, 1, 0, 0, 1, 1, 0], [a, 8686590606261860294, 810438489069303389, 0], 0, 8)
            == [a + 1, a + 1, 8686590606261860294, 810438489069303389,
                810438489069303389, 810438489069303389, 0]
  {
    var a: U64 := TWO_64 - 3438430427565543845;
    var b: U64, c: U64 := 8686590606261860294, 810438489069303389;
    assert EqualityInverse([0], [0], c, 8) == [0];
    assert EqualityInverse([1, 0], [0], c, 8) == [c, 0];
    assert EqualityInverse([1, 1, 0], [0], c, 8) == [c, c, 0];
    assert EqualityInverse([0, 1, 1, 0], [c, 0], b, 8) == [c, c, c, 0];
    assert EqualityInverse([0, 0, 1, 1, 0], [b, c, 0], a + 1, 8) == [b, c, c, c, 0];
    assert EqualityInverse([1, 0, 0, 1, 1, 0], [b, c, 0], a + 1, 8) == [a + 1, b, c, c, c, 0];
  }

  // ---------------------------------------------------------------------------
  // The transforms on blocks

  /** Loop state of the forward transforms after k symbols: the raw values
      and flags emitted so far, followed by what the rest of the input
      produces from `prev` on, make up the whole result. */
  ghost predicate ForwardProgress(w0: seq<U64>, k: nat, prev: U64, raws: seq<U64>, flags: seq<U64>)
  {
    k <= |w0| &&
    EqualityForward(w0, 0) == EqualityCoded(raws + EqualityForward(w0[k..], prev).raws,
                                            flags + EqualityForward(w0[k..], prev).flags)
  }

  /** One symbol of the forward loops: a repeat appends flag 1, any other
      symbol appends flag 0 and its raw value and becomes the previous one. */
  lemma ForwardProgressStep(w0: seq<U64>, k: nat, prev: U64, raws: seq<U64>, flags: seq<U64>,
                            prev': U64, raws': seq<U64>, flags': seq<U64>)
    requires ForwardProgress(w0, k, prev, raws, flags) && k < |w0|
    requires w0[k] == prev ==> prev' == prev && raws' == raws && flags' == flags + [1]
    requires w0[k] != prev ==> prev' == w0[k] && raws' == raws + [RawOf(w0[k], prev)] && flags' == flags + [0]
    ensures ForwardProgress(w0, k + 1, prev', raws', flags')
  {
    assert w0[k..][1..] == w0[k + 1..];
    var rest := EqualityForward(w0[k + 1..], prev');
    if w0[k] == prev {
      assert flags + ([1] + rest.flags) == (flags + [1]) + rest.flags;
    } else {
      assert raws + ([RawOf(w0[k], prev)] + rest.raws) == (raws + [RawOf(w0[k], prev)]) + rest.raws;
      assert flags + ([0] + rest.flags) == (flags + [0]) + rest.flags;
    }
  }

  /** At the end of the input the emitted streams are the result. */
  lemma ForwardProgressDone(w0: seq<U64>, prev: U64, raws: seq<U64>, flags: seq<U64>)
    requires ForwardProgress(w0, |w0|, prev, raws, flags)
    ensures EqualityForward(w0, 0) == EqualityCoded(raws, flags)
  {
    assert w0[|w0|..] == [];
  }

  /** transformEqualityCoding0, for word size 1: the flags are written over
      the values in place while the raw values are appended to a new block;
      the two blocks are swapped at the end. */
  method TransformEqualityCoding0(values: DataBlock, equalityFlags: DataBlock)
    requires values.Valid() && values.wordSize == 1 && values != equalityFlags
    modifies values, equalityFlags
    ensures values.Valid() && equalityFlags.Valid()
    ensures values.wordSize == 1 && equalityFlags.wordSize == 1
    ensures values.Words() == EqualityForward(old(values.Words()), 0).raws
    ensures equalityFlags.Words() == EqualityForward(old(values.Words()), 0).flags
  {
    ghost var w0 := values.Words();
    var previousSymbol: U64 := 0;
    var empty := new DataBlock(0, values.wordSize);
    equalityFlags.Assign(empty);
    var r := values.GetReader();
    assert w0[0..] == w0;
    while r.IsValid()
      invariant r.Valid() && r.block == values && values.wordSize == 1
      invariant equalityFlags.Valid() && equalityFlags.wordSize == 1
      invariant r.Index() <= |w0| == |values.Words()|
      invariant values.Words()[r.Index()..] == w0[r.Index()..]
      invariant ForwardProgress(w0, r.Index(), previousSymbol, equalityFlags.Words(), values.Words()[..r.Index()])
      decreases r.end - r.curr
    {
      previousSymbol := Coding0Step(values, equalityFlags, r, w0, previousSymbol);
      r.Inc();
    }
    ForwardProgressDone(w0, previousSymbol, equalityFlags.Words(), values.Words()[..r.Index()]);
    assert values.Words()[..r.Index()] == values.Words();
    equalityFlags.Swap(values);
  }

  /** The body of the loop of transformEqualityCoding0 for the symbol under r. */
  method Coding0Step(values: DataBlock, equalityFlags: DataBlock, r: BlockStepper,
                     ghost w0: seq<U64>, previousSymbol: U64) returns (next: U64)
    requires r.Valid() && r.block == values && values.wordSize == 1 && r.curr < r.end
    requires equalityFlags.Valid() && equalityFlags.wordSize == 1 && values != equalityFlags
    requires r.Index() < |w0| == |values.Words()|
    requires values.Words()[r.Index()..] == w0[r.Index()..]
    requires ForwardProgress(w0, r.Index(), previousSymbol, equalityFlags.Words(), values.Words()[..r.Index()])
    modifies values, equalityFlags
    ensures r.Valid() && values.wordSize == 1 && equalityFlags.Valid() && equalityFlags.wordSize == 1
    ensures |w0| == |values.Words()|
    ensures values.Words()[r.Index() + 1..] == w0[r.Index() + 1..]
    ensures ForwardProgress(w0, r.Index() + 1, next, equalityFlags.Words(), values.Words()[..r.Index() + 1])
  {
    ghost var k := r.Index();
    ghost var before := values.Words();
    ghost var raws := equalityFlags.Words();
    var symbol := r.Get();
    assert symbol == w0[k] by { assert w0[k..][0] == before[k..][0]; }
    next := previousSymbol;
    if symbol == previousSymbol {
      r.Set(1);
    } else {
      r.Set(0);
      equalityFlags.PushBack(RawOf(symbol, previousSymbol));
      next := symbol;
    }
    WordWritten(before, values.Words(), k, k);
    ForwardProgressStep(w0, k, previousSymbol, raws, before[..k], next, equalityFlags.Words(), values.Words()[..k + 1]);
  }

  /** transformEqualityCoding1, for other word sizes: the flags go to a new
      block of word size 1 while the raw values are compacted to the front
      of the values block by a second stepper, which is then cut to them. */
  method TransformEqualityCoding1(values: DataBlock, equalityFlags: DataBlock)
    requires values.Valid() && |values.data| % values.wordSize == 0 && values != equalityFlags
    modifies values, equalityFlags
    ensures values.Valid() && equalityFlags.Valid()
    ensures values.wordSize == old(values.wordSize) && equalityFlags.wordSize == 1
    ensures values.Words() == EqualityForward(old(values.Words()), 0).raws
    ensures equalityFlags.Words() == EqualityForward(old(values.Words()), 0).flags
  {
    ghost var w0 := values.Words();
    ghost var m := WordMod(values.wordSize);
    WordsBelow(values.data, values.wordSize);
    var previousSymbol: U64 := 0;
    var empty := new DataBlock(0, 1);
    equalityFlags.Assign(empty);
    var r := values.GetReader();
    var w := values.GetReader();
    assert w0[0..] == w0;
    while r.IsValid()
      invariant r.Valid() && w.Valid() && r.block == values && w.block == values
      invariant values.wordSize == old(values.wordSize)
      invariant equalityFlags.Valid() && equalityFlags.wordSize == 1 && |equalityFlags.data| % 1 == 0
      invariant w.Index() <= r.Index() <= |w0| == |values.Words()|
      invariant previousSymbol < m
      invariant values.Words()[r.Index()..] == w0[r.Index()..]
      invariant ForwardProgress(w0, r.Index(), previousSymbol, values.Words()[..w.Index()], equalityFlags.Words())
      decreases r.end - r.curr
    {
      previousSymbol := Coding1Step(values, equalityFlags, r, w, w0, previousSymbol);
    }
    ForwardProgressDone(w0, previousSymbol, values.Words()[..w.Index()], equalityFlags.Words());
    StepperCut(w);
    values.Resize(values.Size() - (w.end - w.curr) / w.wordSize);
  }

  /** The body of the loop of transformEqualityCoding1 for the symbol under r. */
  method Coding1Step(values: DataBlock, equalityFlags: DataBlock, r: BlockStepper, w: BlockStepper,
                     ghost w0: seq<U64>, previousSymbol: U64) returns (next: U64)
    requires r.Valid() && w.Valid() && r.block == values && w.block == values && r != w
    requires equalityFlags.Valid() && equalityFlags.wordSize == 1 && |equalityFlags.data| % 1 == 0
    requires values != equalityFlags && r.curr < r.end
    requires w.Index() <= r.Index() < |w0| == |values.Words()|
    requires previousSymbol < WordMod(values.wordSize) && AllBelow(w0, WordMod(values.wordSize))
    requires values.Words()[r.Index()..] == w0[r.Index()..]
    requires ForwardProgress(w0, r.Index(), previousSymbol, values.Words()[..w.Index()], equalityFlags.Words())
    modifies values, equalityFlags, r, w
    ensures r.Valid() && w.Valid() && r.block == values && w.block == values
    ensures r.curr > old(r.curr) && r.end == old(r.end)
    ensures values.wordSize == old(values.wordSize)
    ensures equalityFlags.Valid() && equalityFlags.wordSize == 1 && |equalityFlags.data| % 1 == 0
    ensures w.Index() <= r.Index() <= |w0| == |values.Words()|
    ensures next < WordMod(values.wordSize)
    ensures values.Words()[r.Index()..] == w0[r.Index()..]
    ensures ForwardProgress(w0, r.Index(), next, values.Words()[..w.Index()], equalityFlags.Words())
  {
    ghost var k := r.Index();
    ghost var j := w.Index();
    ghost var before := values.Words();
    ghost var flags := equalityFlags.Words();
    var symbol := ReadRaw(r, w0);
    next := previousSymbol;
    if symbol == previousSymbol {
      equalityFlags.PushBack(1);
      assert values.Words() == before && equalityFlags.Words() == flags + [1];
      ForwardProgressStep(w0, k, previousSymbol, before[..j], flags, next,
                          values.Words()[..w.Index()], equalityFlags.Words());
    } else {
      equalityFlags.PushBack(0);
      assert equalityFlags.Words() == flags + [0];
      WriteAdvance(w, RawOf(symbol, previousSymbol), k);
      SuffixKept(before, values.Words(), w0, k);
      next := symbol;
      ForwardProgressStep(w0, k, previousSymbol, before[..j], flags, next,
                          values.Words()[..w.Index()], equalityFlags.Words());
    }
    assert r.Index() == k + 1;
  }


  /** transformEqualityCoding: word size 1 takes the in-place variant. */
  method TransformEqualityCoding(values: DataBlock, equalityFlags: DataBlock)
    requires values.Valid() && |values.data| % values.wordSize == 0 && values != equalityFlags
    modifies values, equalityFlags
    ensures values.Valid() && equalityFlags.Valid()
    ensures values.wordSize == old(values.wordSize) && equalityFlags.wordSize == 1
    ensures values.Words() == EqualityForward(old(values.Words()), 0).raws
    ensures equalityFlags.Words() == EqualityForward(old(values.Words()), 0).flags
  {
    if values.wordSize == 1 {
      TransformEqualityCoding0(values, equalityFlags);
    } else {
      TransformEqualityCoding1(values, equalityFlags);
    }
  }


  /** Loop state of the inverse after i flags, j raw values consumed and
      previous symbol prev: the words written so far, followed by what the
      rest produces from there, make up the whole result. */
  ghost predicate InverseProgress(f0: seq<U64>, r0: seq<U64>, ws: nat, i: nat, j: nat, prev: U64, done: seq<U64>)
  {
    i <= |f0| && j <= |r0| && ZeroCount(f0) <= |r0| && ZeroCount(f0[i..]) <= |r0| - j &&
    EqualityInverse(f0, r0, 0, ws) == done + EqualityInverse(f0[i..], r0[j..], prev, ws)
  }

  /** One flag of the inverse loop: a zero flag consumes the next raw value,
      which exists, and the new previous symbol is written. */
  lemma InverseProgressStep(f0: seq<U64>, r0: seq<U64>, ws: nat, i: nat, j: nat, prev: U64, done: seq<U64>,
                            j': nat, prev': U64, done': seq<U64>)
    requires InverseProgress(f0, r0, ws, i, j, prev, done) && i < |f0|
    requires f0[i] == 0 ==> j < |r0| && j' == j + 1 && prev' == Restore(r0[j], prev)
    requires f0[i] != 0 ==> j' == j && prev' == prev
    requires done' == done + [Trunc(prev', ws)]
    ensures InverseProgress(f0, r0, ws, i + 1, j', prev', done')
  {
    assert f0[i..][1..] == f0[i + 1..];
    if f0[i] == 0 {
      assert r0[j..][1..] == r0[j + 1..];
    }
    var rest := EqualityInverse(f0[i + 1..], r0[j'..], prev', ws);
    assert done + ([Trunc(prev', ws)] + rest) == done' + rest;
  }

  /** A zero flag still ahead means a raw value is left. */
  lemma InverseNeedsRaw(f0: seq<U64>, r0: seq<U64>, ws: nat, i: nat, j: nat, prev: U64, done: seq<U64>)
    requires InverseProgress(f0, r0, ws, i, j, prev, done) && i < |f0| && f0[i] == 0
    ensures j < |r0|
  {
    assert f0[i..][0] == 0;
  }

  /** inverseTransformEqualityCoding. With word size 1 the symbols are written
      over the flags in place (with the flags' word size) and the blocks are
      swapped; otherwise they go to a new block of the values' word size,
      which is swapped into values. The flags block ends up empty. Reading a
      raw value past the end is undefined behaviour in the source, so the
      flags may not ask for more raw values than there are. */
  method InverseTransformEqualityCoding(values: DataBlock, equalityFlags: DataBlock)
    requires values.Valid() && equalityFlags.Valid() && values != equalityFlags
    requires |values.data| % values.wordSize == 0 && |equalityFlags.data| % equalityFlags.wordSize == 0
    requires ZeroCount(equalityFlags.Words()) <= |values.Words()|
    modifies values, equalityFlags
    ensures values.Valid() && equalityFlags.Valid() && equalityFlags.data == []
    ensures old(values.wordSize) == 1 ==> values.wordSize == old(equalityFlags.wordSize) && equalityFlags.wordSize == 1
    ensures old(values.wordSize) != 1 ==> values.wordSize == old(values.wordSize) && equalityFlags.wordSize == old(equalityFlags.wordSize)
    ensures values.Words() == EqualityInverse(old(equalityFlags.Words()), old(values.Words()), 0, values.wordSize)
  {
    var output := new DataBlock(0, values.wordSize);
    var out: DataBlock;
    if values.wordSize == 1 {
      out := equalityFlags;
    } else {
      out := output;
      output.Resize(equalityFlags.Size());
    }
    var rwrite := InverseLoop(values, equalityFlags, out);
    out.Resize(out.Size() - (rwrite.end - rwrite.curr) / rwrite.wordSize);
    if values.wordSize == 1 {
      values.Swap(equalityFlags);
    } else {
      values.Swap(output);
    }
    equalityFlags.Clear();
  }

  /** The loop of inverseTransformEqualityCoding: rflag walks the flags,
      rval the raw values, and rwrite, returned at its final position, the
      output block, which may be the flags block itself. */
  method InverseLoop(values: DataBlock, equalityFlags: DataBlock, out: DataBlock) returns (rwrite: BlockStepper)
    requires values.Valid() && equalityFlags.Valid() && out.Valid() && values != equalityFlags && out != values
    requires |values.data| % values.wordSize == 0 && |equalityFlags.data| % equalityFlags.wordSize == 0
    requires |out.data| % out.wordSize == 0 && |out.Words()| == |equalityFlags.Words()|
    requires ZeroCount(equalityFlags.Words()) <= |values.Words()|
    modifies out
    ensures out.wordSize == old(out.wordSize) && |out.data| == old(|out.data|)
    ensures out.Valid() && out.Words() == EqualityInverse(old(equalityFlags.Words()), values.Words(), 0, out.wordSize)
    ensures rwrite.Valid() && rwrite.block == out && rwrite.curr == rwrite.end
    ensures (rwrite.end - rwrite.curr) / rwrite.wordSize == 0
  {
    ghost var f0 := equalityFlags.Words();
    ghost var r0 := values.Words();
    ghost var ws := out.wordSize;
    var previousSymbol: U64 := 0;
    var rflag := equalityFlags.GetReader();
    var rval := values.GetReader();
    rwrite := out.GetReader();
    assert f0[0..] == f0 && r0[0..] == r0 && out.Words()[..0] == [];
    while rflag.IsValid()
      invariant rflag.Valid() && rflag.block == equalityFlags && rval.Valid() && rval.block == values
      invariant rwrite.Valid() && rwrite.block == out && out.wordSize == ws && |out.data| == old(|out.data|)
      invariant rwrite.Index() == rflag.Index() <= |f0| == |out.Words()| == |equalityFlags.Words()|
      invariant equalityFlags.Words()[rflag.Index()..] == f0[rflag.Index()..]
      invariant InverseProgress(f0, r0, ws, rflag.Index(), rval.Index(), previousSymbol, out.Words()[..rflag.Index()])
      decreases rflag.end - rflag.curr
    {
      previousSymbol := InverseStep(values, equalityFlags, out, rflag, rval, rwrite, f0, r0, ws, previousSymbol);
    }
    assert InverseProgress(f0, r0, ws, |f0|, rval.Index(), previousSymbol, out.Words()[..|f0|]);
    assert f0[|f0|..] == [] && out.Words()[..|f0|] == out.Words();
    assert !rwrite.IsValid();
    DivModUnique(rwrite.end - rwrite.curr, rwrite.wordSize, 0, 0);
  }

  /** The body of the loop of inverseTransformEqualityCoding for the flag
      under rflag. */
  method InverseStep(values: DataBlock, equalityFlags: DataBlock, out: DataBlock,
                     rflag: BlockStepper, rval: BlockStepper, rwrite: BlockStepper,
                     ghost f0: seq<U64>, ghost r0: seq<U64>, ghost ws: nat, previousSymbol: U64)
    returns (next: U64)
    requires rflag.Valid() && rflag.block == equalityFlags && rval.Valid() && rval.block == values
    requires rwrite.Valid() && rwrite.block == out && out != values && values != equalityFlags && out.wordSize == ws
    requires rval != rwrite && rflag != rwrite && rflag != rval && rflag.curr < rflag.end && rflag.Index() < |f0|
    requires rwrite.Index() == rflag.Index() && |out.Words()| == |f0| == |equalityFlags.Words()|
    requires values.Words() == r0 && equalityFlags.Words()[rflag.Index()..] == f0[rflag.Index()..]
    requires InverseProgress(f0, r0, ws, rflag.Index(), rval.Index(), previousSymbol, out.Words()[..rflag.Index()])
    modifies out, rval, rflag, rwrite
    ensures rflag.Valid() && rflag.block == equalityFlags && rval.Valid() && rval.block == values
    ensures rwrite.Valid() && rwrite.block == out && out.wordSize == ws && |out.data| == old(|out.data|)
    ensures rflag.end == old(rflag.end) && rflag.curr > old(rflag.curr)
    ensures rwrite.Index() == rflag.Index() <= |f0| == |out.Words()| == |equalityFlags.Words()|
    ensures equalityFlags.Words()[rflag.Index()..] == f0[rflag.Index()..]
    ensures InverseProgress(f0, r0, ws, rflag.Index(), rval.Index(), next, out.Words()[..rflag.Index()])
  {
    ghost var i := rflag.Index();
    ghost var j := rval.Index();
    ghost var before := out.Words();
    ghost var flags := equalityFlags.Words();
    assert rwrite.IsValid();
    var flag := rflag.Get();
    assert flag == f0[i] by { assert f0[i..][0] == flags[i..][0]; }
    next := NextSymbol(values, rval, flag, previousSymbol, f0, r0, ws, i, before[..i]);
    rwrite.Set(next);
    WordWritten(before, out.Words(), i, i);
    assert flags[i..][1..] == flags[i + 1..] && f0[i..][1..] == f0[i + 1..];
    InverseProgressStep(f0, r0, ws, i, j, previousSymbol, before[..i], rval.Index(), next, out.Words()[..i + 1]);
    ghost var done := out.Words()[..i + 1];
    rwrite.Inc();
    rflag.Inc();
    assert rflag.Index() == i + 1 && rwrite.Index() == i + 1 && out.Words()[..rflag.Index()] == done;
  }

  /** The symbol an inverse step writes for flag f0[i]: a zero flag takes the
      next raw value under rval and restores it against the previous symbol. */
  method NextSymbol(values: DataBlock, rval: BlockStepper, flag: U64, previousSymbol: U64,
                    ghost f0: seq<U64>, ghost r0: seq<U64>, ghost ws: nat, ghost i: nat, ghost done: seq<U64>)
    returns (next: U64)
    requires rval.Valid() && rval.block == values && values.Words() == r0
    requires InverseProgress(f0, r0, ws, i, rval.Index(), previousSymbol, done) && i < |f0| && flag == f0[i]
    modifies rval
    ensures rval.Valid() && rval.block == values && rval.end == old(rval.end)
    ensures flag == 0 ==> old(rval.Index()) < |r0| && rval.Index() == old(rval.Index()) + 1 &&
                          next == Restore(r0[old(rval.Index())], previousSymbol)
    ensures flag != 0 ==> rval.Index() == old(rval.Index()) && rval.curr == old(rval.curr) && next == previousSymbol
  {
    next := previousSymbol;
    if flag == 0 {
      InverseNeedsRaw(f0, r0, ws, i, rval.Index(), previousSymbol, done);
      assert rval.IsValid();
      var val := rval.Get();
      rval.Inc();
      if val >= previousSymbol {
        next := Wrap64(val + 1);
      } else {
        next := val;
      }
    }
  }
}
