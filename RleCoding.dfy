// Run-length coding (rle_coding.cpp): every maximal run of equal symbols
// becomes one raw value plus a length L - 1 written in guard-sized pieces:
// entries equal to the guard mean "guard more, and the run goes on", and the
// entry below the guard ends the run.
module RleCoding {
  import opened Bytes
  import opened DataBlocks

  /** The two streams the forward transform produces. */
  datatype RleCoded = RleCoded(raws: seq<U64>, lengths: seq<U64>)

  /** Length entries for a run of `len` symbols. */
  function Split(len: nat, guard: U64): (r: seq<U64>)
    requires len >= 1 && guard >= 1
    ensures |r| >= 1 && r[|r| - 1] < guard
    ensures forall i :: 0 <= i < |r| - 1 ==> r[i] == guard
    decreases len
  {
    if len > guard then [guard] + Split(len - guard, guard) else [len - 1]
  }

  /** The forward transform from the state of its loop: a current run of
      `len` copies of `cur` still open, and the symbols `s` not yet read. */
  function RleFrom(s: seq<U64>, cur: U64, len: nat, guard: U64): (r: RleCoded)
    requires len >= 1 && guard >= 1
    ensures |r.raws| >= 1 && r.raws[0] == cur
    decreases |s|
  {
    if s == [] then RleCoded([cur], Split(len, guard))
    else if s[0] == cur then RleFrom(s[1..], cur, len + 1, guard)
    else
      var rest := RleFrom(s[1..], s[0], 1, guard);
      RleCoded([cur] + rest.raws, Split(len, guard) + rest.lengths)
  }

  /** transformRleCoding on a sequence: an empty input gives empty streams. */
  function RleForward(s: seq<U64>, guard: U64): RleCoded
    requires guard >= 1
  {
    if s == [] then RleCoded([], []) else RleFrom(s[1..], s[0], 1, guard)
  }

  // ---------------------------------------------------------------------------
  // The inverse

  /** A run's entries end inside the length stream: some entry is not the
      guard. The source reads on without a bound check otherwise. */
  predicate RunEnds(l: seq<U64>, guard: U64)
  {
    exists i :: 0 <= i < |l| && l[i] != guard
  }

  lemma RunEndsTail(l: seq<U64>, guard: U64)
    requires RunEnds(l, guard) && l[0] == guard
    ensures |l| >= 2 && RunEnds(l[1..], guard)
  {
    var i :| 0 <= i < |l| && l[i] != guard;
    assert l[1..][i - 1] != guard;
  }

  /** One run header: the exact sum of the entries read (all the guard
      entries and the first other one), that sum as the uint64_t
      totalLengthValue holds it, and how many entries were read. */
  datatype RunHeader = RunHeader(sum: nat, total: U64, consumed: nat)

  /** `a + b` on uint64_t operands. */
  function Add64(a: U64, b: U64): (r: U64)
  {
    if a + b < TWO_64 then a + b else a + b - TWO_64
  }

  /** `t++` on a uint64_t. */
  function Inc64(t: U64): (r: U64)
  {
    if t + 1 < TWO_64 then t + 1 else 0
  }

  lemma Add64Wrap(a: U64, b: int)
    ensures Add64(a, Wrap64(b)) == Wrap64(a + b)
  {
    WrapAdd(b, a);
    if a + Wrap64(b) < TWO_64 {
      ModSmall(a + Wrap64(b), TWO_64);
    } else {
      ModSmall(a + Wrap64(b) - TWO_64, TWO_64);
      ModAddMultiple(a + Wrap64(b) - TWO_64, TWO_64, 1);
    }
  }

  function DecodeRun(l: seq<U64>, guard: U64): (d: RunHeader)
    requires RunEnds(l, guard)
    ensures 1 <= d.consumed <= |l|
    decreases |l|
  {
    if l[0] == guard then
      RunEndsTail(l, guard);
      var rest := DecodeRun(l[1..], guard);
      RunHeader(guard + rest.sum, Add64(guard, rest.total), 1 + rest.consumed)
    else RunHeader(l[0], l[0], 1)
  }

  /** Every raw value finds its run header in the length stream. */
  predicate Decodable(raws: seq<U64>, lengths: seq<U64>, guard: U64)
    decreases |raws|
  {
    raws == [] ||
    (RunEnds(lengths, guard) && Decodable(raws[1..], lengths[DecodeRun(lengths, guard).consumed..], guard))
  }

  function Repeat(x: U64, n: nat): (r: seq<U64>)
    ensures |r| == n && forall i :: 0 <= i < n ==> r[i] == x
    decreases n
  {
    if n == 0 then [] else [x] + Repeat(x, n - 1)
  }

  /** inverseTransformRleCoding on sequences: each raw value repeated
      sum + 1 times, the count kept in a uint64_t. */
  function RleInverse(raws: seq<U64>, lengths: seq<U64>, guard: U64): seq<U64>
    requires Decodable(raws, lengths, guard)
    decreases |raws|
  {
    if raws == [] then []
    else
      var d := DecodeRun(lengths, guard);
      Repeat(raws[0], Inc64(d.total)) + RleInverse(raws[1..], lengths[d.consumed..], guard)
  }

  // ---------------------------------------------------------------------------
  // Properties

  /** The pieces of a run length add up to len - 1 and are read back as one
      run header, whatever follows them. */
  lemma {:induction false} SplitDecodes(len: nat, guard: U64, rest: seq<U64>)
    requires len >= 1 && guard >= 1
    ensures RunEnds(Split(len, guard) + rest, guard)
    ensures DecodeRun(Split(len, guard) + rest, guard).sum == len - 1
    ensures DecodeRun(Split(len, guard) + rest, guard).consumed == |Split(len, guard)|
    decreases len
  {
    var l := Split(len, guard) + rest;
    if len > guard {
      SplitDecodes(len - guard, guard, rest);
      assert l[1..] == Split(len - guard, guard) + rest;
      var i :| 0 <= i < |l[1..]| && l[1..][i] != guard;
      assert l[i + 1] != guard;
    } else {
      assert l[0] != guard;
    }
  }

  /** Below 2^64 symbols, the run header of a run of len symbols makes the
      inverse copy its raw value len times. */
  lemma SplitHeader(len: nat, guard: U64, rest: seq<U64>)
    requires len >= 1 && guard >= 1 && len < TWO_64
    ensures RunEnds(Split(len, guard) + rest, guard)
    ensures DecodeRun(Split(len, guard) + rest, guard).consumed == |Split(len, guard)|
    ensures Inc64(DecodeRun(Split(len, guard) + rest, guard).total) == len
  {
    SplitDecodes(len, guard, rest);
    HeaderTotal(Split(len, guard) + rest, guard);
    ModSmall(len - 1, TWO_64);
  }

  /** Each maximal run yields `floor((L-1)/guard)` guard entries and a final
      entry `L - 1 - k*guard` below the guard. */
  lemma {:induction false} SplitShape(len: nat, guard: U64)
    requires len >= 1 && guard >= 1
    ensures |Split(len, guard)| == (len - 1) / guard + 1
    ensures Split(len, guard)[|Split(len, guard)| - 1] == (len - 1) % guard
    decreases len
  {
    if len > guard {
      SplitShape(len - guard, guard);
      DivModUnique(len - 1, guard, (len - guard - 1) / guard + 1, (len - guard - 1) % guard);
    } else {
      DivModUnique(len - 1, guard, 0, len - 1);
    }
  }

  predicate AdjacentDistinct(s: seq<U64>)
  {
    forall i :: 0 <= i < |s| - 1 ==> s[i] != s[i + 1]
  }

  predicate AllAtMost(s: seq<U64>, bound: nat)
  {
    forall i :: 0 <= i < |s| ==> s[i] <= bound
  }

  /** Consecutive raw values differ (one raw value per maximal run), and no
      length entry exceeds the guard. */
  lemma {:induction false} RleFromShape(s: seq<U64>, cur: U64, len: nat, guard: U64)
    requires len >= 1 && guard >= 1
    ensures AdjacentDistinct(RleFrom(s, cur, len, guard).raws)
    ensures AllAtMost(RleFrom(s, cur, len, guard).lengths, guard)
    decreases |s|
  {
    if s != [] {
      if s[0] == cur {
        RleFromShape(s[1..], cur, len + 1, guard);
        assert RleFrom(s, cur, len, guard) == RleFrom(s[1..], cur, len + 1, guard);
      } else {
        RleFromShape(s[1..], s[0], 1, guard);
        var rest := RleFrom(s[1..], s[0], 1, guard);
        var r := RleFrom(s, cur, len, guard);
        assert r.raws == [cur] + rest.raws;
        forall i | 0 <= i < |r.raws| - 1
          ensures r.raws[i] != r.raws[i + 1]
        {
          if i > 0 {
            assert r.raws[i] == rest.raws[i - 1] && r.raws[i + 1] == rest.raws[i - 1 + 1];
            assert rest.raws[i - 1] != rest.raws[i - 1 + 1];
          } else {
            assert r.raws[1] == rest.raws[0] == s[0];
          }
        }
        forall i | 0 <= i < |r.lengths|
          ensures r.lengths[i] <= guard
        {
          var sp := Split(len, guard);
          if i >= |sp| {
            assert r.lengths[i] == rest.lengths[i - |sp|];
            assert rest.lengths[i - |sp|] <= guard;
          } else {
            assert r.lengths[i] == sp[i];
            assert i < |sp| - 1 ==> sp[i] == guard;
          }
        }
      }
    }
  }

  /** The raws and run headers of the loop state decode to the open run
      followed by the unread symbols. */
  lemma {:induction false} RleFromRoundTrip(s: seq<U64>, cur: U64, len: nat, guard: U64)
    requires len >= 1 && guard >= 1 && len + |s| < TWO_64
    ensures Decodable(RleFrom(s, cur, len, guard).raws, RleFrom(s, cur, len, guard).lengths, guard)
    ensures RleInverse(RleFrom(s, cur, len, guard).raws, RleFrom(s, cur, len, guard).lengths, guard)
            == Repeat(cur, len) + s
    decreases |s|
  {
    var r := RleFrom(s, cur, len, guard);
    if s == [] {
      SplitHeader(len, guard, []);
      assert Split(len, guard) + [] == Split(len, guard);
      assert r.lengths[|Split(len, guard)|..] == [];
      assert r.raws[1..] == [];
    } else if s[0] == cur {
      RleFromRoundTrip(s[1..], cur, len + 1, guard);
      assert Repeat(cur, len + 1) + s[1..] == Repeat(cur, len) + s;
    } else {
      var rest := RleFrom(s[1..], s[0], 1, guard);
      RleFromRoundTrip(s[1..], s[0], 1, guard);
      SplitHeader(len, guard, rest.lengths);
      assert r.lengths[|Split(len, guard)|..] == rest.lengths;
      assert r.raws[1..] == rest.raws;
      assert Repeat(s[0], 1) + s[1..] == s;
    }
  }

  /** Round trip: the inverse restores every sequence shorter than 2^64. */
  lemma InverseOfForward(s: seq<U64>, guard: U64)
    requires guard >= 1 && |s| < TWO_64
    ensures Decodable(RleForward(s, guard).raws, RleForward(s, guard).lengths, guard)
    ensures RleInverse(RleForward(s, guard).raws, RleForward(s, guard).lengths, guard) == s
  {
    if s != [] {
      RleFromRoundTrip(s[1..], s[0], 1, guard);
      assert Repeat(s[0], 1) + s[1..] == s;
    }
  }

  /** The vector of rle_coding_test.cpp: five 1s with guard 2. */
  lemma FiveOnes()
    ensures RleForward([1, 1, 1, 1, 1], 2) == RleCoded([1], [2, 2, 0])
  {
    assert Split(1, 2) == [0];
    assert Split(3, 2) == [2, 0];
    assert Split(5, 2) == [2, 2, 0];
    assert [1, 1, 1, 1, 1][1..] == [1, 1, 1, 1];
  }

  /** The forward streams keep one raw value per maximal run and no length
      entry above the guard. */
  lemma ForwardShape(s: seq<U64>, guard: U64)
    requires guard >= 1
    ensures AdjacentDistinct(RleForward(s, guard).raws)
    ensures AllAtMost(RleForward(s, guard).lengths, guard)
    ensures s == [] <==> RleForward(s, guard).raws == []
  {
    if s != [] {
      RleFromShape(s[1..], s[0], 1, guard);
    }
  }

  // ---------------------------------------------------------------------------
  // The transforms on blocks

  /** Loop state of transformRleCoding after k symbols: the raw values and
      length entries emitted so far, followed by what the open run `cur`
      of `len` and the rest of the input produce, make up the result. */
  ghost predicate ForwardProgress(w0: seq<U64>, guard: U64, k: nat, cur: U64, len: nat,
                                  raws: seq<U64>, lens: seq<U64>)
    requires guard >= 1
  {
    1 <= k <= |w0| && len >= 1 &&
    RleForward(w0, guard) == RleCoded(raws + RleFrom(w0[k..], cur, len, guard).raws,
                                      lens + RleFrom(w0[k..], cur, len, guard).lengths)
  }

  /** One symbol: a repeat lengthens the open run; any other symbol closes
      it (its raw value and length entries are emitted) and opens a new one. */
  lemma ForwardProgressStep(w0: seq<U64>, guard: U64, k: nat, cur: U64, len: nat,
                            raws: seq<U64>, lens: seq<U64>)
    requires guard >= 1 && ForwardProgress(w0, guard, k, cur, len, raws, lens) && k < |w0|
    ensures w0[k] == cur ==> ForwardProgress(w0, guard, k + 1, cur, len + 1, raws, lens)
    ensures w0[k] != cur ==>
              ForwardProgress(w0, guard, k + 1, w0[k], 1, raws + [cur], lens + Split(len, guard))
  {
    assert w0[k..][1..] == w0[k + 1..];
    if w0[k] != cur {
      var rest := RleFrom(w0[k + 1..], w0[k], 1, guard);
      assert raws + ([cur] + rest.raws) == (raws + [cur]) + rest.raws;
      assert lens + (Split(len, guard) + rest.lengths) == (lens + Split(len, guard)) + rest.lengths;
    }
  }

  /** At the end of the input, closing the open run completes the result. */
  lemma ForwardProgressDone(w0: seq<U64>, guard: U64, cur: U64, len: nat, raws: seq<U64>, lens: seq<U64>)
    requires guard >= 1 && ForwardProgress(w0, guard, |w0|, cur, len, raws, lens)
    ensures RleForward(w0, guard) == RleCoded(raws + [cur], lens + Split(len, guard))
  {
    assert w0[|w0|..] == [];
  }

  /** The length entries of one run: guard while more than guard remain,
      then the rest minus one; push_back stores them truncated to the word
      size of the lengths block. */
  method PushRunLengths(lengths: DataBlock, guard: U64, lengthValue: nat, ghost emitted: seq<U64>)
    requires guard >= 1 && lengthValue >= 1
    requires lengths.Valid() && |lengths.data| % lengths.wordSize == 0
    requires lengths.Words() == TruncAll(emitted, lengths.wordSize)
    modifies lengths
    ensures lengths.Valid() && |lengths.data| % lengths.wordSize == 0 && lengths.wordSize == old(lengths.wordSize)
    ensures lengths.Words() == TruncAll(emitted + Split(lengthValue, guard), lengths.wordSize)
  {
    var lv := lengthValue;
    ghost var e := emitted;
    while lv > guard
      invariant lv >= 1 && lengths.Valid() && |lengths.data| % lengths.wordSize == 0
      invariant lengths.wordSize == old(lengths.wordSize)
      invariant lengths.Words() == TruncAll(e, lengths.wordSize)
      invariant e + Split(lv, guard) == emitted + Split(lengthValue, guard)
      decreases lv
    {
      lengths.PushBack(guard);
      TruncAllSnoc(e, guard, lengths.wordSize);
      SplitStep(e, lv, guard);
      e := e + [guard];
      lv := lv - guard;
    }
    lengths.PushBack(lv - 1);
    TruncAllSnoc(e, lv - 1, lengths.wordSize);
    SplitLast(e, lv, guard);
  }

  lemma SplitStep(e: seq<U64>, lv: nat, guard: U64)
    requires lv > guard >= 1
    ensures (e + [guard]) + Split(lv - guard, guard) == e + Split(lv, guard)
  {
  }

  lemma SplitLast(e: seq<U64>, lv: nat, guard: U64)
    requires 1 <= lv <= guard
    ensures e + [lv - 1] == e + Split(lv, guard)
  {
  }

  /** transformRleCoding: the raw values are compacted to the front of the
      block by a second stepper while the length entries are appended to
      `lengths`, which is cleared first and keeps its word size. */
  method TransformRleCoding(guard: U64, rawValues: DataBlock, lengths: DataBlock)
    requires guard >= 1 && rawValues != lengths
    requires rawValues.Valid() && |rawValues.data| % rawValues.wordSize == 0 && lengths.Valid()
    modifies rawValues, lengths
    ensures rawValues.Valid() && lengths.Valid()
    ensures rawValues.wordSize == old(rawValues.wordSize) && lengths.wordSize == old(lengths.wordSize)
    ensures rawValues.Words() == RleForward(old(rawValues.Words()), guard).raws
    ensures lengths.Words() == TruncAll(RleForward(old(rawValues.Words()), guard).lengths, lengths.wordSize)
  {
    ghost var w0 := rawValues.Words();
    lengths.Clear();
    if rawValues.Empty() {
      return;
    }
    var r := rawValues.GetReader();
    var w := rawValues.GetReader();
    assert r.IsValid();
    var cur: U64 := r.Get();
    assert cur == w0[0];
    r.Inc();
    var lengthValue: nat := 1;
    ghost var emitted: seq<U64> := [];
    assert rawValues.Words()[..0] == [] && emitted == [];
    assert RleForward(w0, guard) == RleFrom(w0[1..], w0[0], 1, guard);
    assert ForwardProgress(w0, guard, 1, cur, 1, [], []);
    while r.IsValid()
      invariant r.Valid() && w.Valid() && r.block == rawValues && w.block == rawValues
      invariant rawValues.wordSize == old(rawValues.wordSize) && lengths.Valid()
      invariant lengths.wordSize == old(lengths.wordSize) && |lengths.data| % lengths.wordSize == 0
      invariant w.Index() < r.Index() <= |w0| == |rawValues.Words()|
      invariant cur < WordMod(rawValues.wordSize)
      invariant rawValues.Words()[r.Index()..] == w0[r.Index()..]
      invariant lengths.Words() == TruncAll(emitted, lengths.wordSize)
      invariant ForwardProgress(w0, guard, r.Index(), cur, lengthValue, rawValues.Words()[..w.Index()], emitted)
      decreases r.end - r.curr
    {
      cur, lengthValue, emitted := RleStep(rawValues, lengths, r, w, guard, w0, cur, lengthValue, emitted);
    }
    ForwardProgressDone(w0, guard, cur, lengthValue, rawValues.Words()[..w.Index()], emitted);
    CloseRun(rawValues, lengths, w, guard, |w0| - 1, cur, lengthValue, emitted);
    StepperCut(w);
    rawValues.Resize(rawValues.Size() - (w.end - w.curr) / w.wordSize);
  }

  /** The body of the loop of transformRleCoding: read the next symbol and
      extend or close the open run. */
  method RleStep(rawValues: DataBlock, lengths: DataBlock, r: BlockStepper, w: BlockStepper, guard: U64,
                 ghost w0: seq<U64>, cur: U64, lengthValue: nat, ghost emitted: seq<U64>)
    returns (cur': U64, lengthValue': nat, ghost emitted': seq<U64>)
    requires guard >= 1 && rawValues != lengths && r != w && r.curr < r.end
    requires r.Valid() && w.Valid() && r.block == rawValues && w.block == rawValues && lengths.Valid()
    requires |lengths.data| % lengths.wordSize == 0
    requires w.Index() < r.Index() <= |w0| == |rawValues.Words()|
    requires cur < WordMod(rawValues.wordSize)
    requires rawValues.Words()[r.Index()..] == w0[r.Index()..]
    requires lengths.Words() == TruncAll(emitted, lengths.wordSize)
    requires ForwardProgress(w0, guard, r.Index(), cur, lengthValue, rawValues.Words()[..w.Index()], emitted)
    modifies rawValues, lengths, r, w
    ensures r.Valid() && w.Valid() && r.block == rawValues && w.block == rawValues
    ensures rawValues.wordSize == old(rawValues.wordSize) && lengths.Valid()
    ensures lengths.wordSize == old(lengths.wordSize) && |lengths.data| % lengths.wordSize == 0
    ensures w.Index() < r.Index() <= |w0| == |rawValues.Words()|
    ensures cur' < WordMod(rawValues.wordSize)
    ensures rawValues.Words()[r.Index()..] == w0[r.Index()..]
    ensures lengths.Words() == TruncAll(emitted', lengths.wordSize)
    ensures ForwardProgress(w0, guard, r.Index(), cur', lengthValue', rawValues.Words()[..w.Index()], emitted')
    ensures r.end - r.curr < old(r.end - r.curr)
  {
    ghost var k := r.Index();
    var tmp := ReadRaw(r, w0);
    ForwardProgressStep(w0, guard, k, cur, lengthValue, rawValues.Words()[..w.Index()], emitted);
    cur', lengthValue', emitted' := cur, lengthValue + 1, emitted;
    if tmp != cur {
      ghost var before := rawValues.Words();
      CloseRun(rawValues, lengths, w, guard, k, cur, lengthValue, emitted);
      SuffixKept(before, rawValues.Words(), w0, k);
      cur' := tmp;
      lengthValue' := 1;
      emitted' := emitted + Split(lengthValue, guard);
    }
  }

  /** Closing the open run: its raw value is written at w, which advances,
      and its length entries are appended; word k (w's position at most)
      is the last one the write may touch. */
  method CloseRun(rawValues: DataBlock, lengths: DataBlock, w: BlockStepper, guard: U64,
                  ghost k: nat, cur: U64, lengthValue: nat, ghost emitted: seq<U64>)
    requires guard >= 1 && lengthValue >= 1 && rawValues != lengths && w.Valid() && w.block == rawValues
    requires lengths.Valid() && |lengths.data| % lengths.wordSize == 0
    requires lengths.Words() == TruncAll(emitted, lengths.wordSize)
    requires w.Index() <= k < |rawValues.Words()| && cur < WordMod(rawValues.wordSize)
    modifies rawValues, lengths, w
    ensures w.Valid() && w.block == rawValues && rawValues.wordSize == old(rawValues.wordSize)
    ensures |rawValues.data| == old(|rawValues.data|) && |rawValues.Words()| == old(|rawValues.Words()|)
    ensures w.Index() == old(w.Index()) + 1
    ensures rawValues.Words()[..w.Index()] == old(rawValues.Words())[..old(w.Index())] + [cur]
    ensures rawValues.Words()[k + 1..] == old(rawValues.Words())[k + 1..]
    ensures lengths.Valid() && |lengths.data| % lengths.wordSize == 0 && lengths.wordSize == old(lengths.wordSize)
    ensures lengths.Words() == TruncAll(emitted + Split(lengthValue, guard), lengths.wordSize)
  {
    WriteAdvance(w, cur, k);
    PushRunLengths(lengths, guard, lengthValue, emitted);
  }

  /** Loop state of inverseTransformRleCoding after i raw values and j
      length entries: the symbols so far, followed by what the rest decodes
      to, make up the result. */
  ghost predicate InverseProgress(r0: seq<U64>, l0: seq<U64>, guard: U64, i: nat, j: nat, done: seq<U64>)
  {
    i <= |r0| && j <= |l0| && Decodable(r0, l0, guard) && Decodable(r0[i..], l0[j..], guard) &&
    RleInverse(r0, l0, guard) == done + RleInverse(r0[i..], l0[j..], guard)
  }

  /** A raw value left: its run header starts at entry j and ends inside
      the length entries. */
  lemma InverseRunStart(r0: seq<U64>, l0: seq<U64>, guard: U64, i: nat, j: nat, done: seq<U64>)
    requires InverseProgress(r0, l0, guard, i, j, done) && i < |r0|
    ensures RunEnds(l0[j..], guard)
    ensures j + DecodeRun(l0[j..], guard).consumed <= |l0|
  {
  }

  /** One raw value: its copies extend the output and its run header is
      consumed. */
  lemma InverseProgressStep(r0: seq<U64>, l0: seq<U64>, guard: U64, i: nat, j: nat, done: seq<U64>,
                            j': nat, done': seq<U64>)
    requires InverseProgress(r0, l0, guard, i, j, done) && i < |r0|
    requires j' == j + DecodeRun(l0[j..], guard).consumed
    requires done' == done + Repeat(r0[i], Inc64(DecodeRun(l0[j..], guard).total))
    ensures InverseProgress(r0, l0, guard, i + 1, j', done')
  {
    var d := DecodeRun(l0[j..], guard);
    var copies := Repeat(r0[i], Inc64(d.total));
    InverseCons(r0[i..], l0[j..], guard);
    assert r0[i..][1..] == r0[i + 1..];
    assert l0[j..][d.consumed..] == l0[j'..];
    var rest := RleInverse(r0[i + 1..], l0[j'..], guard);
    assert RleInverse(r0[i..], l0[j..], guard) == copies + rest;
    AppendAssoc(done, copies, rest);
  }

  lemma AppendAssoc(a: seq<U64>, b: seq<U64>, c: seq<U64>)
    ensures a + (b + c) == (a + b) + c
  {
  }

  /** One unfolding of the inverse on a non-empty raw sequence. */
  lemma InverseCons(raws: seq<U64>, lengths: seq<U64>, guard: U64)
    requires raws != [] && Decodable(raws, lengths, guard)
    ensures RunEnds(lengths, guard) && DecodeRun(lengths, guard).consumed <= |lengths|
    ensures Decodable(raws[1..], lengths[DecodeRun(lengths, guard).consumed..], guard)
    ensures RleInverse(raws, lengths, guard) ==
            Repeat(raws[0], Inc64(DecodeRun(lengths, guard).total)) +
            RleInverse(raws[1..], lengths[DecodeRun(lengths, guard).consumed..], guard)
  {
    assert raws != [];
  }

  /** totalLengthValue is the exact sum of the header, modulo 2^64. */
  lemma {:induction false} HeaderTotal(l: seq<U64>, guard: U64)
    requires RunEnds(l, guard)
    ensures DecodeRun(l, guard).total == Wrap64(DecodeRun(l, guard).sum)
    decreases |l|
  {
    if l[0] == guard {
      RunEndsTail(l, guard);
      HeaderTotal(l[1..], guard);
      Add64Wrap(guard, DecodeRun(l[1..], guard).sum);
    } else {
      ModSmall(l[0], TWO_64);
    }
  }

  /** The first length entry of a run header that continues. */
  lemma DecodeRunGuard(l: seq<U64>, guard: U64)
    requires RunEnds(l, guard) && l[0] == guard
    ensures |l| >= 2 && RunEnds(l[1..], guard)
    ensures DecodeRun(l, guard).sum == guard + DecodeRun(l[1..], guard).sum
    ensures DecodeRun(l, guard).consumed == 1 + DecodeRun(l[1..], guard).consumed
  {
    RunEndsTail(l, guard);
  }

  /** Loop state of a run header read from entry j0 on: entries up to j
      read, the last one lv, their exact sum `exact`. */
  ghost predicate HeaderProgress(l0: seq<U64>, guard: U64, j0: nat, j: nat, exact: int, lv: U64)
  {
    j0 < j <= |l0| && lv == l0[j - 1] && exact >= lv && RunEnds(l0[j0..], guard) &&
    RunEnds(l0[j - 1..], guard) &&
    DecodeRun(l0[j0..], guard).sum == exact - lv + DecodeRun(l0[j - 1..], guard).sum &&
    DecodeRun(l0[j0..], guard).consumed == j - 1 - j0 + DecodeRun(l0[j - 1..], guard).consumed
  }

  lemma HeaderStart(l0: seq<U64>, guard: U64, j0: nat)
    requires j0 < |l0| && RunEnds(l0[j0..], guard)
    ensures HeaderProgress(l0, guard, j0, j0 + 1, l0[j0], l0[j0])
  {
  }

  /** An entry equal to the guard: the header goes on at entry j. */
  lemma HeaderStep(l0: seq<U64>, guard: U64, j0: nat, j: nat, exact: int, lv: U64)
    requires HeaderProgress(l0, guard, j0, j, exact, lv) && lv == guard
    ensures j < |l0| && HeaderProgress(l0, guard, j0, j + 1, exact + l0[j], l0[j])
  {
    DecodeRunGuard(l0[j - 1..], guard);
    assert l0[j - 1..][1..] == l0[j..];
  }

  /** An entry other than the guard ends the header. */
  lemma HeaderDone(l0: seq<U64>, guard: U64, j0: nat, j: nat, exact: int, lv: U64)
    requires HeaderProgress(l0, guard, j0, j, exact, lv) && lv != guard
    ensures DecodeRun(l0[j0..], guard).sum == exact && DecodeRun(l0[j0..], guard).consumed == j - j0
  {
  }

  /** One turn of the header loop: the entry read was the guard, so read
      the next one and add it to the running uint64_t sum. */
  method HeaderReadStep(lengths: DataBlock, rLen: BlockStepper, guard: U64, ghost l0: seq<U64>,
                        ghost j0: nat, ghost exact: int, lengthValue: U64, totalLengthValue: U64)
    returns (lv: U64, total: U64, ghost exact': int)
    requires rLen.Valid() && rLen.block == lengths && lengths.Words() == l0
    requires HeaderProgress(l0, guard, j0, rLen.Index(), exact, lengthValue) && lengthValue == guard
    requires totalLengthValue == Wrap64(exact)
    modifies rLen
    ensures rLen.Valid() && rLen.block == lengths && rLen.end == old(rLen.end) && rLen.curr > old(rLen.curr)
    ensures HeaderProgress(l0, guard, j0, rLen.Index(), exact', lv)
    ensures total == Wrap64(exact')
  {
    ghost var j := rLen.Index();
    HeaderStep(l0, guard, j0, j, exact, lengthValue);
    assert rLen.IsValid();
    lv := rLen.Get();
    rLen.Inc();
    WrapStep(totalLengthValue, exact, lv);
    total := Wrap64(totalLengthValue as int + lv);
    exact' := exact + lv;
    assert rLen.Index() == j + 1;
  }

  /** Reading one run header: the first entry, then on while the entry read
      equals the guard; the sum is kept in a uint64_t. Nothing checks the end
      of the length stream, so the header must end inside it. */
  method ReadRunHeader(lengths: DataBlock, rLen: BlockStepper, guard: U64, ghost l0: seq<U64>)
    returns (totalLengthValue: U64)
    requires rLen.Valid() && rLen.block == lengths && lengths.Words() == l0
    requires rLen.Index() <= |l0| && RunEnds(l0[rLen.Index()..], guard)
    modifies rLen
    ensures rLen.Valid() && rLen.block == lengths
    ensures rLen.Index() == old(rLen.Index()) + DecodeRun(l0[old(rLen.Index())..], guard).consumed
    ensures totalLengthValue == DecodeRun(l0[old(rLen.Index())..], guard).total
  {
    ghost var j0 := rLen.Index();
    assert l0[j0..] != [];
    assert rLen.IsValid();
    var lengthValue: U64 := rLen.Get();
    HeaderStart(l0, guard, j0);
    rLen.Inc();
    totalLengthValue := lengthValue;
    ghost var exact: int := lengthValue;
    ModSmall(lengthValue, TWO_64);
    while lengthValue == guard
      invariant rLen.Valid() && rLen.block == lengths
      invariant HeaderProgress(l0, guard, j0, rLen.Index(), exact, lengthValue)
      invariant totalLengthValue == Wrap64(exact)
      decreases rLen.end - rLen.curr
    {
      lengthValue, totalLengthValue, exact :=
        HeaderReadStep(lengths, rLen, guard, l0, j0, exact, lengthValue, totalLengthValue);
    }
    HeaderDone(l0, guard, j0, rLen.Index(), exact, lengthValue);
    HeaderTotal(l0[j0..], guard);
  }

  /** Appends n copies of v. */
  method PushCopies(symbols: DataBlock, v: U64, n: U64)
    requires symbols.Valid() && |symbols.data| % symbols.wordSize == 0 && v < WordMod(symbols.wordSize)
    modifies symbols
    ensures symbols.Valid() && |symbols.data| % symbols.wordSize == 0 && symbols.wordSize == old(symbols.wordSize)
    ensures symbols.Words() == old(symbols.Words()) + Repeat(v, n)
  {
    var totalLengthValue: U64 := n;
    while totalLengthValue > 0
      invariant symbols.Valid() && |symbols.data| % symbols.wordSize == 0
      invariant symbols.wordSize == old(symbols.wordSize) && totalLengthValue <= n
      invariant symbols.Words() == old(symbols.Words()) + Repeat(v, n - totalLengthValue)
    {
      totalLengthValue := totalLengthValue - 1;
      symbols.PushBack(v);
      assert Repeat(v, n - totalLengthValue) == Repeat(v, n - totalLengthValue - 1) + [v];
    }

  }

  /** inverseTransformRleCoding: the symbols go to a new block of the raw
      values' word size, which is swapped into rawValues; the lengths block
      is emptied. The source asserts the raw values are not empty. */
  method InverseTransformRleCoding(guard: U64, rawValues: DataBlock, lengths: DataBlock)
    requires guard >= 1 && rawValues != lengths && rawValues.Valid() && lengths.Valid()
    requires |rawValues.data| % rawValues.wordSize == 0 && |lengths.data| % lengths.wordSize == 0
    requires |rawValues.data| != 0
    requires Decodable(rawValues.Words(), lengths.Words(), guard)
    modifies rawValues, lengths
    ensures rawValues.Valid() && rawValues.wordSize == old(rawValues.wordSize)
    ensures rawValues.Words() == RleInverse(old(rawValues.Words()), old(lengths.Words()), guard)
    ensures lengths.Valid() && lengths.data == [] && lengths.wordSize == old(lengths.wordSize)
  {
    ghost var r0 := rawValues.Words();
    ghost var l0 := lengths.Words();
    var symbols := new DataBlock(0, rawValues.wordSize);
    var rVal := rawValues.GetReader();
    var rLen := lengths.GetReader();
    assert r0[0..] == r0 && l0[0..] == l0;
    assert symbols.Words() == [] by { WordsOfLength(symbols.data, symbols.wordSize); }
    while rVal.IsValid()
      invariant rVal.Valid() && rVal.block == rawValues && rLen.Valid() && rLen.block == lengths
      invariant symbols.Valid() && |symbols.data| % symbols.wordSize == 0 && symbols.wordSize == rawValues.wordSize
      invariant unchanged(rawValues) && unchanged(lengths)
      invariant rawValues.Words() == r0 && lengths.Words() == l0 && |r0| == rawValues.Size()
      invariant InverseProgress(r0, l0, guard, rVal.Index(), rLen.Index(), symbols.Words())
      decreases rVal.end - rVal.curr
    {
      InverseStep(rawValues, lengths, symbols, rVal, rLen, guard, r0, l0);
    }
    assert r0[rVal.Index()..] == [];
    symbols.Swap(rawValues);
    lengths.Clear();
  }

  /** The body of the loop of inverseTransformRleCoding. */
  method InverseStep(rawValues: DataBlock, lengths: DataBlock, symbols: DataBlock,
                     rVal: BlockStepper, rLen: BlockStepper, guard: U64, ghost r0: seq<U64>, ghost l0: seq<U64>)
    requires rVal.Valid() && rVal.block == rawValues && rLen.Valid() && rLen.block == lengths && rVal != rLen
    requires symbols != rawValues && symbols != lengths && rVal.curr < rVal.end
    requires symbols.Valid() && |symbols.data| % symbols.wordSize == 0 && symbols.wordSize == rawValues.wordSize
    requires rawValues.Words() == r0 && lengths.Words() == l0 && |r0| == rawValues.Size()
    requires InverseProgress(r0, l0, guard, rVal.Index(), rLen.Index(), symbols.Words())
    modifies symbols, rVal, rLen
    ensures rVal.Valid() && rVal.block == rawValues && rLen.Valid() && rLen.block == lengths
    ensures symbols.Valid() && |symbols.data| % symbols.wordSize == 0 && symbols.wordSize == rawValues.wordSize
    ensures InverseProgress(r0, l0, guard, rVal.Index(), rLen.Index(), symbols.Words())
    ensures rVal.end - rVal.curr < old(rVal.end - rVal.curr)
  {
    ghost var i := rVal.Index();
    ghost var j := rLen.Index();
    ghost var done := symbols.Words();
    assert rVal.IsValid();
    InverseRunStart(r0, l0, guard, i, j, done);
    ghost var d := DecodeRun(l0[j..], guard);
    var rawValue: U64 := rVal.Get();
    var totalLengthValue := ReadRunHeader(lengths, rLen, guard, l0);
    PushCopies(symbols, rawValue, Inc64(totalLengthValue));
    rVal.Inc();
    assert rVal.Index() == i + 1;
    InverseProgressStep(r0, l0, guard, i, j, done, rLen.Index(), symbols.Words());
  }
}
