// gabac match coding (match_coding.cpp): an LZ77-style transform. Each
// position looks back over a window for the longest earlier run of equal
// words; a run of at least two words becomes a (pointer, length) pair, any
// other position a literal with length 0 whose word goes to the raw values.
module MatchCoding {
  import opened Bytes
  import opened DataBlocks

  /** The three output streams of the forward transform, before they are
      stored in blocks of their own word sizes. */
  datatype MatchCoded = MatchCoded(raws: seq<U64>, pointers: seq<nat>, lengths: seq<nat>)

  /** A candidate found by the window search: start index and run length. */
  datatype Match = Match(pointer: nat, length: nat)

  /** The length of the run of words from i that equals the run from w < i
      (the `offset` loop): it may run into the positions it is compared
      with, but not past the end. */
  function MatchLen(s: seq<U64>, i: nat, w: nat): (n: nat)
    requires w < i
    ensures i + n <= |s| || (n == 0 && i >= |s|)
    decreases |s| - i
  {
    if i < |s| && s[i] == s[w] then 1 + MatchLen(s, i + 1, w + 1) else 0
  }

  /** The window loop from candidate w on, with the best match so far: a
      candidate at least as long replaces it, so the later one wins a tie. */
  function BestFrom(s: seq<U64>, i: nat, w: nat, best: Match): (r: Match)
    decreases i - w
  {
    if w >= i then best
    else
      var offset := MatchLen(s, i, w);
      if offset >= best.length then BestFrom(s, i, w + 1, Match(w, offset))
      else BestFrom(s, i, w + 1, best)
  }

  /** The window search at position i: candidates from i - windowSize, in
      uint64_t arithmetic, up to i - 1. */
  function BestMatch(s: seq<U64>, i: nat, windowSize: U32): Match
  {
    BestFrom(s, i, Wrap64(i - windowSize), Match(0, 0))
  }

  /** transformMatchCoding from position i on, for a window of at least one. */
  function ForwardFrom(s: seq<U64>, windowSize: U32, i: nat): (r: MatchCoded)
    requires i <= |s| <= TWO_64
    decreases |s| - i
  {
    if i == |s| then MatchCoded([], [], [])
    else
      var m := BestMatch(s, i, windowSize);
      if m.length < 2 then
        var rest := ForwardFrom(s, windowSize, i + 1);
        MatchCoded([s[i]] + rest.raws, rest.pointers, [0] + rest.lengths)
      else
        BestMatchBounds(s, i, windowSize);
        var rest := ForwardFrom(s, windowSize, i + m.length);
        MatchCoded(rest.raws, [i - m.pointer] + rest.pointers, [m.length] + rest.lengths)
  }

  function ZeroLengths(n: nat): (r: seq<nat>)
    ensures |r| == n && forall k :: 0 <= k < n ==> r[k] == 0
  {
    seq(n, _ => 0)
  }

  /** transformMatchCoding: window 0 leaves the symbols as they are and
      gives one zero length per symbol. */
  function MatchForward(s: seq<U64>, windowSize: U32): MatchCoded
    requires |s| <= TWO_64
  {
    if windowSize == 0 then MatchCoded(s, [], ZeroLengths(|s|))
    else ForwardFrom(s, windowSize, 0)
  }

  // ---------------------------------------------------------------------------
  // The window search

  /** The result of a window search is the starting match, or a candidate
      from the searched range with its run length. */
  lemma {:induction false} BestFromShape(s: seq<U64>, i: nat, w: nat, best: Match)
    ensures var r := BestFrom(s, i, w, best);
            r == best || (w <= r.pointer < i && r.length == MatchLen(s, i, r.pointer))
    decreases i - w
  {
    if w < i {
      var offset := MatchLen(s, i, w);
      if offset >= best.length {
        BestFromShape(s, i, w + 1, Match(w, offset));
      } else {
        BestFromShape(s, i, w + 1, best);
      }
    }
  }

  /** Below the window size the uint64_t start index wraps past i. */
  lemma WindowWraps(i: nat, windowSize: U32)
    requires i < windowSize
    ensures Wrap64(i - windowSize) >= i
  {
    DivModUnique(i - windowSize, TWO_64, -1, i - windowSize + TWO_64);
  }

  /** Positions before the window size are literals: the search is skipped. */
  lemma EarlyPositionIsLiteral(s: seq<U64>, i: nat, windowSize: U32)
    requires i < windowSize
    ensures BestMatch(s, i, windowSize) == Match(0, 0)
  {
    WindowWraps(i, windowSize);
  }

  /** From the window size on, the search covers i - windowSize to i - 1. */
  lemma WindowStart(i: nat, windowSize: U32)
    requires windowSize <= i < TWO_64
    ensures Wrap64(i - windowSize) == i - windowSize
  {
    ModSmall(i - windowSize, TWO_64);
  }

  /** A match of two or more found at i starts in the window and fits in
      the input. */
  lemma BestMatchBounds(s: seq<U64>, i: nat, windowSize: U32)
    requires i < |s| && i < TWO_64
    ensures var m := BestMatch(s, i, windowSize);
            m.length >= 2 ==> m.pointer < i && i - m.pointer <= windowSize && i + m.length <= |s| &&
                              m.length == MatchLen(s, i, m.pointer)
  {
    if i < windowSize {
      EarlyPositionIsLiteral(s, i, windowSize);
    } else {
      WindowStart(i, windowSize);
      BestFromShape(s, i, i - windowSize, Match(0, 0));
    }
  }

  /** The window search finds a longest candidate, and among the longest
      the last one: every later candidate is strictly shorter. */
  lemma {:induction false} BestFromLongest(s: seq<U64>, i: nat, w: nat, best: Match)
    requires w <= i
    ensures var r := BestFrom(s, i, w, best);
            r.length >= best.length &&
            (forall v :: w <= v < i ==> MatchLen(s, i, v) <= r.length) &&
            ((r == best && forall v :: w <= v < i ==> MatchLen(s, i, v) < best.length) ||
             (w <= r.pointer < i && r.length == MatchLen(s, i, r.pointer) &&
              forall v :: r.pointer < v < i ==> MatchLen(s, i, v) < r.length))
    decreases i - w
  {
    if w < i {
      var offset := MatchLen(s, i, w);
      if offset >= best.length {
        BestFromLongest(s, i, w + 1, Match(w, offset));
      } else {
        BestFromLongest(s, i, w + 1, best);
      }
    }
  }

  /** With a window of at least one inside the input: the match found is a
      candidate of the window with its run length, no candidate is longer,
      and every candidate after it is shorter. */
  lemma BestMatchIsLastLongest(s: seq<U64>, i: nat, windowSize: U32)
    requires 1 <= windowSize <= i < TWO_64
    ensures var m := BestMatch(s, i, windowSize);
            i - windowSize <= m.pointer < i && m.length == MatchLen(s, i, m.pointer) &&
            (forall v :: i - windowSize <= v < i ==> MatchLen(s, i, v) <= m.length) &&
            (forall v :: m.pointer < v < i ==> MatchLen(s, i, v) < m.length)
  {
    WindowStart(i, windowSize);
    var w := i - windowSize;
    BestFromLongest(s, i, w, Match(0, 0));
    var r := BestFrom(s, i, w, Match(0, 0));
    assert r == BestMatch(s, i, windowSize);
    assert !(MatchLen(s, i, w) < 0);
  }

  /** The run found by the offset loop: equal, word by word, to the run
      it is compared with. */
  lemma {:induction false} MatchLenRun(s: seq<U64>, i: nat, w: nat)
    requires w < i <= |s|
    ensures i + MatchLen(s, i, w) <= |s|
    ensures s[i..i + MatchLen(s, i, w)] == s[w..w + MatchLen(s, i, w)]
    decreases |s| - i
  {
    var n := MatchLen(s, i, w);
    if i < |s| && s[i] == s[w] {
      MatchLenRun(s, i + 1, w + 1);
      assert s[i..i + n] == [s[i]] + s[i + 1..i + n];
      assert s[w..w + n] == [s[w]] + s[w + 1..w + n];
    }
  }

  // ---------------------------------------------------------------------------
  // Shape of the output

  /** Every length is 0 (a literal) or a match length from 2 to `bound`. */
  predicate LengthsValid(lengths: seq<nat>, bound: nat)
  {
    forall k :: 0 <= k < |lengths| ==> lengths[k] == 0 || 2 <= lengths[k] <= bound
  }

  /** Every pointer reaches back into the window. */
  predicate PointersInWindow(pointers: seq<nat>, windowSize: nat)
  {
    forall k :: 0 <= k < |pointers| ==> 1 <= pointers[k] <= windowSize
  }

  /** Number of literals among the lengths. */
  function Literals(lengths: seq<nat>): (n: nat)
    ensures n <= |lengths|
  {
    if lengths == [] then 0 else (if lengths[0] == 0 then 1 else 0) + Literals(lengths[1..])
  }

  /** One length per token, a raw value per literal and a pointer per
      match; lengths are 0 or at least 2 and pointers lie in [1, windowSize]. */
  predicate WellShaped(r: MatchCoded, windowSize: nat, bound: nat)
  {
    |r.lengths| == |r.pointers| + |r.raws| && Literals(r.lengths) == |r.raws| &&
    LengthsValid(r.lengths, bound) && PointersInWindow(r.pointers, windowSize)
  }

  lemma LiteralKeepsShape(rest: MatchCoded, x: U64, windowSize: nat, bound: nat)
    requires WellShaped(rest, windowSize, bound)
    ensures WellShaped(MatchCoded([x] + rest.raws, rest.pointers, [0] + rest.lengths), windowSize, bound)
  {
    assert ([0] + rest.lengths)[1..] == rest.lengths;
  }

  lemma MatchKeepsShape(rest: MatchCoded, pointer: nat, length: nat, windowSize: nat, bound: nat)
    requires WellShaped(rest, windowSize, bound) && 1 <= pointer <= windowSize && 2 <= length <= bound
    ensures WellShaped(MatchCoded(rest.raws, [pointer] + rest.pointers, [length] + rest.lengths), windowSize, bound)
  {
    assert ([length] + rest.lengths)[1..] == rest.lengths;
  }

  /** The forward transform's output is well shaped; no match is longer
      than the input. */
  lemma {:induction false} ForwardFromShape(s: seq<U64>, windowSize: U32, i: nat)
    requires i <= |s| <= TWO_64
    ensures WellShaped(ForwardFrom(s, windowSize, i), windowSize, |s|)
    decreases |s| - i
  {
    if i < |s| {
      var m := BestMatch(s, i, windowSize);
      BestMatchBounds(s, i, windowSize);
      if m.length < 2 {
        ForwardFromShape(s, windowSize, i + 1);
        LiteralKeepsShape(ForwardFrom(s, windowSize, i + 1), s[i], windowSize, |s|);
      } else {
        ForwardFromShape(s, windowSize, i + m.length);
        MatchKeepsShape(ForwardFrom(s, windowSize, i + m.length), i - m.pointer, m.length, windowSize, |s|);
      }
    }
  }

  lemma ForwardShape(s: seq<U64>, windowSize: U32)
    requires |s| <= TWO_64
    ensures WellShaped(MatchForward(s, windowSize), windowSize, |s|)
  {
    if windowSize == 0 {
      LiteralsOfZeros(|s|);
    } else {
      ForwardFromShape(s, windowSize, 0);
    }
  }

  lemma {:induction false} LiteralsOfZeros(n: nat)
    ensures Literals(ZeroLengths(n)) == n
  {
    if n > 0 {
      assert ZeroLengths(n)[1..] == ZeroLengths(n - 1);
      LiteralsOfZeros(n - 1);
    }
  }

  /** Window 0 is no special case: the general loop with an empty window
      also makes every position a literal. */
  lemma {:induction false} WindowZeroAllLiterals(s: seq<U64>, i: nat)
    requires i <= |s| <= TWO_64
    ensures ForwardFrom(s, 0, i) == MatchCoded(s[i..], [], ZeroLengths(|s| - i))
    decreases |s| - i
  {
    if i < |s| {
      assert Wrap64(i - 0) == i by { ModSmall(i, TWO_64); }
      WindowZeroAllLiterals(s, i + 1);
      assert [s[i]] + s[i + 1..] == s[i..];
      assert [0] + ZeroLengths(|s| - i - 1) == ZeroLengths(|s| - i);
    }
  }

  // ---------------------------------------------------------------------------
  // The inverse transform

  /** The copy loop: `length` times, append the word `pointer` places back
      from the end; a copy may overlap the words it appends. */
  function CopyBack(out: seq<U64>, pointer: nat, length: nat): (r: seq<U64>)
    requires 1 <= pointer <= |out|
    ensures |r| == |out| + length && r[..|out|] == out
    decreases length
  {
    if length == 0 then out
    else
      var r := CopyBack(out + [out[|out| - pointer]], pointer, length - 1);
      assert r[..|out|] == (r[..|out| + 1])[..|out|];
      r
  }

  /** The inverse transform is defined on the streams: every length 0 has
      a raw value left, every other length a pointer left that reaches at
      most back to the first of the `n` words decoded so far. (Stored
      streams hold unsigned words; a negative length never decodes.) */
  predicate Decodable(raws: seq<U64>, pointers: seq<int>, lengths: seq<int>, n: nat)
    decreases |lengths|
  {
    if lengths == [] then true
    else if lengths[0] == 0 then raws != [] && Decodable(raws[1..], pointers, lengths[1..], n + 1)
    else lengths[0] > 0 && pointers != [] && 1 <= pointers[0] <= n &&
         Decodable(raws, pointers[1..], lengths[1..], n + lengths[0])
  }

  /** inverseTransformMatchCoding from the words decoded so far, `out`. */
  function InverseFrom(raws: seq<U64>, pointers: seq<int>, lengths: seq<int>, out: seq<U64>): (r: seq<U64>)
    requires Decodable(raws, pointers, lengths, |out|)
    ensures |out| <= |r| && r[..|out|] == out
    decreases |lengths|
  {
    if lengths == [] then out
    else if lengths[0] == 0 then
      var r := InverseFrom(raws[1..], pointers, lengths[1..], out + [raws[0]]);
      assert r[..|out|] == (r[..|out| + 1])[..|out|];
      r
    else
      var c := CopyBack(out, pointers[0], lengths[0]);
      var r := InverseFrom(raws, pointers[1..], lengths[1..], c);
      assert r[..|out|] == (r[..|c|])[..|out|];
      r
  }

  function MatchInverse(raws: seq<U64>, pointers: seq<int>, lengths: seq<int>): seq<U64>
    requires Decodable(raws, pointers, lengths, 0)
  {
    InverseFrom(raws, pointers, lengths, [])
  }

  /** Copying a run that equals the run `pointer` places before it rebuilds
      the input, overlapping or not. */
  lemma {:induction false} CopyBackRun(s: seq<U64>, i: nat, pointer: nat, length: nat)
    requires 1 <= pointer <= i && i + length <= |s|
    requires s[i..i + length] == s[i - pointer..i - pointer + length]
    ensures CopyBack(s[..i], pointer, length) == s[..i + length]
    decreases length
  {
    if length > 0 {
      assert s[..i][i - pointer] == s[i - pointer] == s[i..i + length][0];
      assert s[..i] + [s[i]] == s[..i + 1];
      assert s[i + 1..i + length] == s[i..i + length][1..];
      assert s[i + 1 - pointer..i + 1 - pointer + (length - 1)] == s[i - pointer..i - pointer + length][1..];
      CopyBackRun(s, i + 1, pointer, length - 1);
    }
  }

  /** One literal in front of the streams: its raw value is appended. */
  lemma InverseLiteralCons(raws: seq<U64>, pointers: seq<int>, lengths: seq<int>, out: seq<U64>, x: U64)
    requires Decodable(raws, pointers, lengths, |out| + 1)
    ensures Decodable([x] + raws, pointers, [0] + lengths, |out|)
    ensures InverseFrom([x] + raws, pointers, [0] + lengths, out) == InverseFrom(raws, pointers, lengths, out + [x])
  {
    assert ([x] + raws)[1..] == raws && ([0] + lengths)[1..] == lengths;
  }

  /** One match in front of the streams: its run is copied back. */
  lemma InverseMatchCons(raws: seq<U64>, pointers: seq<int>, lengths: seq<int>, out: seq<U64>,
                         pointer: nat, length: nat)
    requires 1 <= pointer <= |out| && length >= 1
    requires Decodable(raws, pointers, lengths, |out| + length)
    ensures Decodable(raws, [pointer] + pointers, [length] + lengths, |out|)
    ensures InverseFrom(raws, [pointer] + pointers, [length] + lengths, out) ==
            InverseFrom(raws, pointers, lengths, CopyBack(out, pointer, length))
  {
    assert ([pointer] + pointers)[1..] == pointers && ([length] + lengths)[1..] == lengths;
  }

  /** Decoding what the forward transform produced from position i on,
      after the first i words, gives back the whole input. */
  predicate RoundTripsFrom(s: seq<U64>, windowSize: U32, i: nat)
    requires i <= |s| <= TWO_64
  {
    var r := ForwardFrom(s, windowSize, i);
    Decodable(r.raws, r.pointers, r.lengths, i) && InverseFrom(r.raws, r.pointers, r.lengths, s[..i]) == s
  }

  lemma {:induction false} ForwardFromInverse(s: seq<U64>, windowSize: U32, i: nat)
    requires i <= |s| <= TWO_64
    ensures RoundTripsFrom(s, windowSize, i)
    decreases |s| - i
  {
    if i == |s| {
      assert s[..i] == s;
    } else {
      var m := BestMatch(s, i, windowSize);
      if m.length < 2 {
        ForwardFromInverse(s, windowSize, i + 1);
        LiteralRoundTrips(s, windowSize, i);
      } else {
        MatchFits(s, windowSize, i);
        var next := i + m.length;
        ForwardFromInverse(s, windowSize, next);
        MatchRoundTrips(s, windowSize, i, next);
      }
    }
  }

  lemma LiteralRoundTrips(s: seq<U64>, windowSize: U32, i: nat)
    requires i < |s| <= TWO_64 && BestMatch(s, i, windowSize).length < 2
    requires RoundTripsFrom(s, windowSize, i + 1)
    ensures RoundTripsFrom(s, windowSize, i)
  {
    var rest := ForwardFrom(s, windowSize, i + 1);
    assert ForwardFrom(s, windowSize, i) == MatchCoded([s[i]] + rest.raws, rest.pointers, [0] + rest.lengths);
    assert s[..i] + [s[i]] == s[..i + 1];
    InverseLiteralCons(rest.raws, rest.pointers, rest.lengths, s[..i], s[i]);
  }

  lemma MatchRoundTrips(s: seq<U64>, windowSize: U32, i: nat, next: nat)
    requires i < |s| <= TWO_64 && BestMatch(s, i, windowSize).length >= 2
    requires next == i + BestMatch(s, i, windowSize).length <= |s|
    requires RoundTripsFrom(s, windowSize, next)
    ensures RoundTripsFrom(s, windowSize, i)
  {
    var m := BestMatch(s, i, windowSize);
    var rest := ForwardFrom(s, windowSize, next);
    MatchCopies(s, windowSize, i);
    MatchStepInverse(rest.raws, rest.pointers, rest.lengths, s, i, i - m.pointer, m.length);
  }

  /** A match found at i: the forward transform emits its pointer and
      length, and copying it back rebuilds the words it covers. */
  lemma MatchCopies(s: seq<U64>, windowSize: U32, i: nat)
    requires i < |s| <= TWO_64 && BestMatch(s, i, windowSize).length >= 2
    ensures var m := BestMatch(s, i, windowSize);
            m.pointer < i && i + m.length <= |s| &&
            var rest := ForwardFrom(s, windowSize, i + m.length);
            ForwardFrom(s, windowSize, i) == MatchCoded(rest.raws, [i - m.pointer] + rest.pointers, [m.length] + rest.lengths) &&
            CopyBack(s[..i], i - m.pointer, m.length) == s[..i + m.length]
  {
    var m := BestMatch(s, i, windowSize);
    BestMatchBounds(s, i, windowSize);
    MatchLenRun(s, i, m.pointer);
    CopyBackRun(s, i, i - m.pointer, m.length);
  }

  lemma MatchFits(s: seq<U64>, windowSize: U32, i: nat)
    requires i < |s| <= TWO_64 && BestMatch(s, i, windowSize).length >= 2
    ensures i + BestMatch(s, i, windowSize).length <= |s|
  {
    BestMatchBounds(s, i, windowSize);
  }

  /** The match step of the round trip, stated on the streams alone. */
  lemma MatchStepInverse(raws: seq<U64>, pointers: seq<int>, lengths: seq<int>, s: seq<U64>,
                         i: nat, pointer: nat, length: nat)
    requires 1 <= pointer <= i && length >= 1 && i + length <= |s|
    requires CopyBack(s[..i], pointer, length) == s[..i + length]
    requires Decodable(raws, pointers, lengths, i + length)
    requires InverseFrom(raws, pointers, lengths, s[..i + length]) == s
    ensures Decodable(raws, [pointer] + pointers, [length] + lengths, i)
    ensures InverseFrom(raws, [pointer] + pointers, [length] + lengths, s[..i]) == s
  {
    InverseMatchCons(raws, pointers, lengths, s[..i], pointer, length);
  }

  /** The round trip: the inverse transform is defined on the output of
      the forward transform and gives back the input, for every window. */
  lemma ForwardInverse(s: seq<U64>, windowSize: U32)
    requires |s| <= TWO_64
    ensures var r := MatchForward(s, windowSize);
            Decodable(r.raws, r.pointers, r.lengths, 0) && MatchInverse(r.raws, r.pointers, r.lengths) == s
  {
    if windowSize == 0 {
      WindowZeroAllLiterals(s, 0);
      assert s[0..] == s;
    }
    ForwardFromInverse(s, windowSize, 0);
    assert s[..0] == [];
  }

  /** The pointer and length streams are stored in blocks of their own
      word sizes. When the window size and the input length fit those
      words, storing loses nothing and the stored streams decode to the
      input. */
  lemma StoredRoundTrip(s: seq<U64>, windowSize: U32, pointerWordSize: nat, lengthWordSize: nat)
    requires |s| <= TWO_64 && windowSize < WordMod(pointerWordSize) && |s| < WordMod(lengthWordSize)
    ensures var r := MatchForward(s, windowSize);
            var pointers := TruncAll(r.pointers, pointerWordSize);
            var lengths := TruncAll(r.lengths, lengthWordSize);
            pointers == r.pointers && lengths == r.lengths &&
            Decodable(r.raws, pointers, lengths, 0) && MatchInverse(r.raws, pointers, lengths) == s
  {
    var r := MatchForward(s, windowSize);
    ForwardShape(s, windowSize);
    assert AllBelow(r.pointers, WordMod(pointerWordSize));
    assert AllBelow(r.lengths, WordMod(lengthWordSize));
    TruncAllBelow(r.pointers, pointerWordSize);
    TruncAllBelow(r.lengths, lengthWordSize);
    ForwardInverse(s, windowSize);
  }

  /** The example of the unit tests: window 4 over eight words finds the
      run 2, -3, 4 again three words back. */
  lemma ForwardExample()
    ensures var s: seq<U64> := [TWO_64 - 1, 2, TWO_64 - 3, 4, 2, TWO_64 - 3, 4, TWO_64 - 1];
            MatchForward(s, 4) ==
            MatchCoded([TWO_64 - 1, 2, TWO_64 - 3, 4, TWO_64 - 1], [3], [0, 0, 0, 0, 3, 0])
  {
    var s: seq<U64> := [TWO_64 - 1, 2, TWO_64 - 3, 4, 2, TWO_64 - 3, 4, TWO_64 - 1];
    EarlyPositionIsLiteral(s, 0, 4);
    EarlyPositionIsLiteral(s, 1, 4);
    EarlyPositionIsLiteral(s, 2, 4);
    EarlyPositionIsLiteral(s, 3, 4);
    WindowStart(4, 4);
    assert MatchLen(s, 4, 0) == 0 && MatchLen(s, 4, 2) == 0 && MatchLen(s, 4, 3) == 0;
    assert MatchLen(s, 7, 4) == 0;
    assert MatchLen(s, 6, 3) == 1;
    assert MatchLen(s, 5, 2) == 2;
    assert MatchLen(s, 4, 1) == 3;
    assert BestMatch(s, 4, 4) == Match(1, 3);
    WindowStart(7, 4);
    assert MatchLen(s, 7, 3) == 0 && MatchLen(s, 7, 5) == 0 && MatchLen(s, 7, 6) == 0;
    assert BestMatch(s, 7, 4) == Match(6, 0);
    assert ForwardFrom(s, 4, 8) == MatchCoded([], [], []);
    assert ForwardFrom(s, 4, 7) == MatchCoded([TWO_64 - 1], [], [0]);
    assert ForwardFrom(s, 4, 4) == MatchCoded([TWO_64 - 1], [3], [3, 0]);
    assert ForwardFrom(s, 4, 3) == MatchCoded([4, TWO_64 - 1], [3], [0, 3, 0]);
    assert ForwardFrom(s, 4, 2) == MatchCoded([TWO_64 - 3, 4, TWO_64 - 1], [3], [0, 0, 3, 0]);
    assert ForwardFrom(s, 4, 1) == MatchCoded([2, TWO_64 - 3, 4, TWO_64 - 1], [3], [0, 0, 0, 3, 0]);
  }

  // ---------------------------------------------------------------------------
  // transformMatchCoding on blocks

  /** The offset loop: how far the run from i equals the run from w. */
  method MatchLength(symbols: DataBlock, symbolsSize: U64, i: U64, w: U64) returns (length: U64)
    requires symbols.Valid() && symbolsSize == symbols.Size() && w < i <= symbolsSize
    ensures length == MatchLen(symbols.Words(), i, w)
  {
    var offset: U64 := i;
    while offset < symbolsSize && symbols.Get(offset) == symbols.Get(w + offset - i)
      invariant i <= offset <= symbolsSize
      invariant MatchLen(symbols.Words(), i, w) == (offset - i) + MatchLen(symbols.Words(), offset, w + offset - i)
      decreases symbolsSize - offset
    {
      offset := offset + 1;
    }
    length := offset - i;
  }

  /** The window loop at position i, with the start index in uint64_t
      arithmetic: below the window size it wraps and the loop is skipped. */
  method FindMatch(symbols: DataBlock, symbolsSize: U64, i: U64, windowSize: U32) returns (pointer: U64, length: U64)
    requires symbols.Valid() && symbolsSize == symbols.Size() && i < symbolsSize
    ensures Match(pointer, length) == BestMatch(symbols.Words(), i, windowSize)
  {
    pointer := 0;
    length := 0;
    var windowStartIdx: U64 := Wrap64(i - windowSize);
    var windowEndIdx: U64 := i;
    var w: U64 := windowStartIdx;
    while w < windowEndIdx
      invariant BestFrom(symbols.Words(), i, w, Match(pointer, length)) == BestMatch(symbols.Words(), i, windowSize)
      decreases windowEndIdx - w
    {
      var offset := MatchLength(symbols, symbolsSize, i, w);
      if offset >= length {
        length := offset;
        pointer := w;
      }
      w := w + 1;
    }
  }

  /** The streams emitted so far, followed by what the rest emits. */
  function Concat(a: MatchCoded, b: MatchCoded): MatchCoded
  {
    MatchCoded(a.raws + b.raws, a.pointers + b.pointers, a.lengths + b.lengths)
  }

  /** The outer loop after position i: `done` was emitted for the words
      before i. */
  ghost predicate ForwardProgress(s: seq<U64>, windowSize: U32, i: nat, done: MatchCoded)
  {
    i <= |s| <= TWO_64 && windowSize >= 1 &&
    ForwardFrom(s, windowSize, 0) == Concat(done, ForwardFrom(s, windowSize, i))
  }

  lemma ForwardProgressLiteral(s: seq<U64>, windowSize: U32, i: nat, done: MatchCoded)
    requires ForwardProgress(s, windowSize, i, done) && i < |s| && BestMatch(s, i, windowSize).length < 2
    ensures ForwardProgress(s, windowSize, i + 1, MatchCoded(done.raws + [s[i]], done.pointers, done.lengths + [0]))
  {
    var rest := ForwardFrom(s, windowSize, i + 1);
    assert ForwardFrom(s, windowSize, i) == MatchCoded([s[i]] + rest.raws, rest.pointers, [0] + rest.lengths);
    assert done.raws + ([s[i]] + rest.raws) == (done.raws + [s[i]]) + rest.raws;
    assert done.lengths + ([0] + rest.lengths) == (done.lengths + [0]) + rest.lengths;
  }

  lemma ForwardProgressMatch(s: seq<U64>, windowSize: U32, i: nat, done: MatchCoded)
    requires ForwardProgress(s, windowSize, i, done) && i < |s| && BestMatch(s, i, windowSize).length >= 2
    ensures var m := BestMatch(s, i, windowSize);
            m.pointer < i && i + m.length <= |s| &&
            ForwardProgress(s, windowSize, i + m.length,
                            MatchCoded(done.raws, done.pointers + [i - m.pointer], done.lengths + [m.length]))
  {
    var m := BestMatch(s, i, windowSize);
    BestMatchBounds(s, i, windowSize);
    var rest := ForwardFrom(s, windowSize, i + m.length);
    assert ForwardFrom(s, windowSize, i) == MatchCoded(rest.raws, [i - m.pointer] + rest.pointers, [m.length] + rest.lengths);
    assert done.pointers + ([i - m.pointer] + rest.pointers) == (done.pointers + [i - m.pointer]) + rest.pointers;
    assert done.lengths + ([m.length] + rest.lengths) == (done.lengths + [m.length]) + rest.lengths;
  }

  lemma ForwardProgressDone(s: seq<U64>, windowSize: U32, done: MatchCoded)
    requires ForwardProgress(s, windowSize, |s|, done)
    ensures MatchForward(s, windowSize) == done
  {
    assert done.raws + [] == done.raws && done.pointers + [] == done.pointers && done.lengths + [] == done.lengths;
  }

  /** The three output blocks hold the streams emitted so far, each in its
      own word size; raw values keep the symbols' word size. */
  ghost predicate Stored(rawValues: DataBlock, pointers: DataBlock, lengths: DataBlock, done: MatchCoded)
    reads rawValues, pointers, lengths
  {
    rawValues.Valid() && pointers.Valid() && lengths.Valid() &&
    |rawValues.data| % rawValues.wordSize == 0 && |pointers.data| % pointers.wordSize == 0 &&
    |lengths.data| % lengths.wordSize == 0 &&
    rawValues.Words() == done.raws && pointers.Words() == TruncAll(done.pointers, pointers.wordSize) &&
    lengths.Words() == TruncAll(done.lengths, lengths.wordSize)
  }

  /** transformMatchCoding. With window 0 the symbols stay and the lengths
      are that many zeros; otherwise the raw values are gathered in a new
      block of the symbols' word size that is swapped into `symbols`. The
      pointers and lengths are truncated to their blocks' word sizes. */
  method TransformMatchCoding(windowSize: U32, symbols: DataBlock, pointers: DataBlock, lengths: DataBlock)
    requires symbols != pointers && symbols != lengths && pointers != lengths
    requires symbols.Valid() && pointers.Valid() && lengths.Valid() && symbols.Size() < TWO_64
    modifies symbols, pointers, lengths
    ensures symbols.Valid() && pointers.Valid() && lengths.Valid()
    ensures symbols.wordSize == old(symbols.wordSize) && pointers.wordSize == old(pointers.wordSize)
    ensures lengths.wordSize == old(lengths.wordSize)
    ensures var r := MatchForward(old(symbols.Words()), windowSize);
            symbols.Words() == r.raws && pointers.Words() == TruncAll(r.pointers, pointers.wordSize) &&
            lengths.Words() == TruncAll(r.lengths, lengths.wordSize)
  {
    ghost var s := symbols.Words();
    var rawValues := new DataBlock(0, symbols.wordSize);
    pointers.Clear();
    lengths.Clear();
    if windowSize == 0 {
      // resize fills with zeros, which the std::fill keeps
      lengths.Resize(symbols.Size());
      assert lengths.Words() == TruncAll(ZeroLengths(|s|), lengths.wordSize);
      return;
    }
    assert rawValues.Words() == [] by { WordsOfLength(rawValues.data, rawValues.wordSize); }
    ForwardLoop(windowSize, symbols, rawValues, pointers, lengths);
    rawValues.Swap(symbols);
  }

  /** The outer loop of transformMatchCoding, for a window of at least one. */
  method ForwardLoop(windowSize: U32, symbols: DataBlock, rawValues: DataBlock, pointers: DataBlock, lengths: DataBlock)
    requires symbols != rawValues && symbols != pointers && symbols != lengths
    requires rawValues != pointers && rawValues != lengths && pointers != lengths
    requires windowSize >= 1 && symbols.Valid() && symbols.Size() < TWO_64
    requires rawValues.wordSize == symbols.wordSize && Stored(rawValues, pointers, lengths, MatchCoded([], [], []))
    modifies rawValues, pointers, lengths
    ensures rawValues.wordSize == old(rawValues.wordSize) && pointers.wordSize == old(pointers.wordSize)
    ensures lengths.wordSize == old(lengths.wordSize)
    ensures Stored(rawValues, pointers, lengths, MatchForward(symbols.Words(), windowSize))
  {
    ghost var s := symbols.Words();
    var symbolsSize: U64 := symbols.Size();
    var i: U64 := 0;
    ghost var done := MatchCoded([], [], []);
    assert Concat(done, ForwardFrom(s, windowSize, 0)) == ForwardFrom(s, windowSize, 0);
    while i < symbolsSize
      invariant rawValues.wordSize == symbols.wordSize && pointers.wordSize == old(pointers.wordSize)
      invariant lengths.wordSize == old(lengths.wordSize)
      invariant Stored(rawValues, pointers, lengths, done)
      invariant ForwardProgress(s, windowSize, i, done)
      decreases symbolsSize - i
    {
      i, done := ForwardStep(symbols, rawValues, pointers, lengths, symbolsSize, windowSize, i, done);
    }
    ForwardProgressDone(s, windowSize, done);
  }

  /** The body of the outer loop: a literal or a match at position i. */
  method ForwardStep(symbols: DataBlock, rawValues: DataBlock, pointers: DataBlock, lengths: DataBlock,
                     symbolsSize: U64, windowSize: U32, i: U64, ghost done: MatchCoded)
      returns (next: U64, ghost done': MatchCoded)
    requires symbols != rawValues && symbols != pointers && symbols != lengths
    requires rawValues != pointers && rawValues != lengths && pointers != lengths
    requires symbols.Valid() && symbolsSize == symbols.Size() && i < symbolsSize
    requires rawValues.wordSize == symbols.wordSize
    requires Stored(rawValues, pointers, lengths, done)
    requires ForwardProgress(symbols.Words(), windowSize, i, done)
    modifies rawValues, pointers, lengths
    ensures rawValues.wordSize == old(rawValues.wordSize) && pointers.wordSize == old(pointers.wordSize)
    ensures lengths.wordSize == old(lengths.wordSize)
    ensures Stored(rawValues, pointers, lengths, done')
    ensures ForwardProgress(symbols.Words(), windowSize, next, done') && i < next
  {
    var pointer, length := FindMatch(symbols, symbolsSize, i, windowSize);
    if length < 2 {
      ForwardProgressLiteral(symbols.Words(), windowSize, i, done);
      done' := EmitLiteral(rawValues, lengths, symbols.Get(i), done);
      next := i + 1;
    } else {
      ForwardProgressMatch(symbols.Words(), windowSize, i, done);
      done' := EmitMatch(pointers, lengths, i - pointer, length, done);
      next := i + length;
    }
  }

  /** A literal: length 0 and the symbol as a raw value. */
  method EmitLiteral(rawValues: DataBlock, lengths: DataBlock, symbol: U64, ghost done: MatchCoded)
      returns (ghost done': MatchCoded)
    requires rawValues != lengths && rawValues.Valid() && symbol < WordMod(rawValues.wordSize)
    requires |rawValues.data| % rawValues.wordSize == 0 && rawValues.Words() == done.raws
    requires lengths.Valid() && |lengths.data| % lengths.wordSize == 0
    requires lengths.Words() == TruncAll(done.lengths, lengths.wordSize)
    modifies rawValues, lengths
    ensures done' == MatchCoded(done.raws + [symbol], done.pointers, done.lengths + [0])
    ensures rawValues.Valid() && rawValues.wordSize == old(rawValues.wordSize)
    ensures |rawValues.data| % rawValues.wordSize == 0 && rawValues.Words() == done'.raws
    ensures lengths.Valid() && lengths.wordSize == old(lengths.wordSize) && |lengths.data| % lengths.wordSize == 0
    ensures lengths.Words() == TruncAll(done'.lengths, lengths.wordSize)
  {
    TruncAllSnoc(done.lengths, 0, lengths.wordSize);
    lengths.PushBack(0);
    rawValues.PushBack(symbol);
    done' := MatchCoded(done.raws + [symbol], done.pointers, done.lengths + [0]);
  }

  /** A match: its pointer and its length, each truncated to its block. */
  method EmitMatch(pointers: DataBlock, lengths: DataBlock, pointer: U64, length: U64, ghost done: MatchCoded)
      returns (ghost done': MatchCoded)
    requires pointers != lengths && pointers.Valid() && |pointers.data| % pointers.wordSize == 0
    requires pointers.Words() == TruncAll(done.pointers, pointers.wordSize)
    requires lengths.Valid() && |lengths.data| % lengths.wordSize == 0
    requires lengths.Words() == TruncAll(done.lengths, lengths.wordSize)
    modifies pointers, lengths
    ensures done' == MatchCoded(done.raws, done.pointers + [pointer], done.lengths + [length])
    ensures pointers.Valid() && pointers.wordSize == old(pointers.wordSize) && |pointers.data| % pointers.wordSize == 0
    ensures pointers.Words() == TruncAll(done'.pointers, pointers.wordSize)
    ensures lengths.Valid() && lengths.wordSize == old(lengths.wordSize) && |lengths.data| % lengths.wordSize == 0
    ensures lengths.Words() == TruncAll(done'.lengths, lengths.wordSize)
  {
    TruncAllSnoc(done.pointers, pointer, pointers.wordSize);
    TruncAllSnoc(done.lengths, length, lengths.wordSize);
    pointers.PushBack(pointer);
    lengths.PushBack(length);
    done' := MatchCoded(done.raws, done.pointers + [pointer], done.lengths + [length]);
  }

  // ---------------------------------------------------------------------------
  // inverseTransformMatchCoding on blocks

  /** The decoding loop after `c` lengths, `b` pointers and `a` raw values
      have decoded to `done`: the rest decodes `done` to `target`. */
  ghost predicate InverseProgress(r0: seq<U64>, p0: seq<U64>, l0: seq<U64>, a: nat, b: nat, c: nat, done: seq<U64>,
                                  target: seq<U64>)
  {
    a <= |r0| && b <= |p0| && c <= |l0| &&
    Decodable(r0[a..], p0[b..], l0[c..], |done|) && target == InverseFrom(r0[a..], p0[b..], l0[c..], done)
  }

  lemma InverseProgressLiteral(r0: seq<U64>, p0: seq<U64>, l0: seq<U64>, a: nat, b: nat, c: nat, done: seq<U64>,
                               target: seq<U64>)
    requires InverseProgress(r0, p0, l0, a, b, c, done, target) && c < |l0| && l0[c] == 0
    ensures a < |r0| && InverseProgress(r0, p0, l0, a + 1, b, c + 1, done + [r0[a]], target)
  {
    UnfoldLiteral(r0[a..], p0[b..], l0[c..], done);
    assert l0[c..][1..] == l0[c + 1..];
    assert r0[a..][1..] == r0[a + 1..];
  }

  lemma InverseProgressMatch(r0: seq<U64>, p0: seq<U64>, l0: seq<U64>, a: nat, b: nat, c: nat, done: seq<U64>,
                             target: seq<U64>)
    requires InverseProgress(r0, p0, l0, a, b, c, done, target) && c < |l0| && l0[c] != 0
    ensures b < |p0| && 1 <= p0[b] <= |done|
    ensures InverseProgress(r0, p0, l0, a, b + 1, c + 1, CopyBack(done, p0[b], l0[c]), target)
  {
    var raws, pointers, lengths := r0[a..], p0[b..], l0[c..];
    assert pointers[1..] == p0[b + 1..] && lengths[1..] == l0[c + 1..];
    UnfoldMatchAt(raws, pointers, lengths, done, p0[b], l0[c], p0[b + 1..], l0[c + 1..]);
  }

  /** UnfoldMatch with the head and tails of the streams named. */
  lemma UnfoldMatchAt(raws: seq<U64>, pointers: seq<int>, lengths: seq<int>, out: seq<U64>,
                      pointer: int, length: int, pointers': seq<int>, lengths': seq<int>)
    requires Decodable(raws, pointers, lengths, |out|) && lengths != [] && lengths[0] != 0
    requires pointers != [] && pointer == pointers[0] && pointers' == pointers[1..]
    requires length == lengths[0] && lengths' == lengths[1..]
    ensures length > 0 && 1 <= pointer <= |out|
    ensures Decodable(raws, pointers', lengths', |CopyBack(out, pointer, length)|)
    ensures InverseFrom(raws, pointers, lengths, out) == InverseFrom(raws, pointers', lengths', CopyBack(out, pointer, length))
  {
    UnfoldMatch(raws, pointers, lengths, out);
  }

  /** One step of the inverse on a literal. */
  lemma UnfoldLiteral(raws: seq<U64>, pointers: seq<int>, lengths: seq<int>, out: seq<U64>)
    requires Decodable(raws, pointers, lengths, |out|) && lengths != [] && lengths[0] == 0
    ensures raws != [] && Decodable(raws[1..], pointers, lengths[1..], |out| + 1)
    ensures InverseFrom(raws, pointers, lengths, out) == InverseFrom(raws[1..], pointers, lengths[1..], out + [raws[0]])
  {
  }

  /** One step of the inverse on a match. */
  lemma UnfoldMatch(raws: seq<U64>, pointers: seq<int>, lengths: seq<int>, out: seq<U64>)
    requires Decodable(raws, pointers, lengths, |out|) && lengths != [] && lengths[0] != 0
    ensures lengths[0] > 0 && pointers != [] && 1 <= pointers[0] <= |out|
    ensures Decodable(raws, pointers[1..], lengths[1..], |out| + lengths[0])
    ensures InverseFrom(raws, pointers, lengths, out) ==
            InverseFrom(raws, pointers[1..], lengths[1..], CopyBack(out, pointers[0], lengths[0]))
  {
  }

  lemma CopyBackStep(out: seq<U64>, pointer: nat, length: nat, out': seq<U64>)
    requires 1 <= pointer <= |out| && length >= 1 && out' == out + [out[|out| - pointer]]
    ensures CopyBack(out, pointer, length) == CopyBack(out', pointer, length - 1)
  {
  }

  /** One turn of the copy loop. */
  method CopyOne(symbols: DataBlock, n: nat, pointer: U64) returns (n': nat)
    requires symbols.Valid() && |symbols.data| % symbols.wordSize == 0
    requires n == symbols.Size() && 1 <= pointer <= n
    modifies symbols
    ensures symbols.Valid() && |symbols.data| % symbols.wordSize == 0 && symbols.wordSize == old(symbols.wordSize)
    ensures symbols.Words() == old(symbols.Words()) + [old(symbols.Words())[n - pointer]]
    ensures n' == n + 1 == symbols.Size()
  {
    var v := symbols.Get(n - pointer);
    symbols.PushBack(v);
    n' := n + 1;
  }

  /** The copy loop of a match: `length` words, each read `pointer` words
      back from the end of the symbols decoded so far. */
  method CopyMatch(symbols: DataBlock, n: nat, pointer: U64, length: U64) returns (n': nat)
    requires Decoded(symbols, symbols.wordSize, n) && 1 <= pointer <= n
    modifies symbols
    ensures Decoded(symbols, old(symbols.wordSize), n')
    ensures symbols.Words() == CopyBack(old(symbols.Words()), pointer, length)
  {
    ghost var ws := symbols.wordSize;
    ghost var goal := CopyBack(symbols.Words(), pointer, length);
    n' := n;
    var l: U64 := 0;
    while l < length
      invariant Decoded(symbols, ws, n') && l <= length && pointer <= n'
      invariant goal == CopyBack(symbols.Words(), pointer, length - l)
    {
      n' := CopyOneStep(symbols, n', pointer, length - l, goal);
      l := l + 1;
    }
  }

  /** One turn of the copy loop, with the words still to copy. */
  method CopyOneStep(symbols: DataBlock, n: nat, pointer: U64, left: nat, ghost goal: seq<U64>) returns (n': nat)
    requires Decoded(symbols, symbols.wordSize, n) && 1 <= pointer <= n && left >= 1
    requires goal == CopyBack(symbols.Words(), pointer, left)
    modifies symbols
    ensures Decoded(symbols, old(symbols.wordSize), n') && n' == n + 1
    ensures goal == CopyBack(symbols.Words(), pointer, left - 1)
  {
    ghost var before := symbols.Words();
    n' := CopyOne(symbols, n, pointer);
    CopyBackStep(before, pointer, left, symbols.Words());
  }


  /** inverseTransformMatchCoding: the symbols are decoded into a new block
      of the raw values' word size, which is swapped into `rawValues`; the
      pointer and length blocks are emptied. The source asserts that there
      are as many lengths as pointers and raw values together; every other
      requirement keeps its reads inside the blocks. */
  method InverseTransformMatchCoding(rawValues: DataBlock, pointers: DataBlock, lengths: DataBlock)
    requires rawValues != pointers && rawValues != lengths && pointers != lengths
    requires rawValues.Valid() && pointers.Valid() && lengths.Valid()
    requires |rawValues.data| % rawValues.wordSize == 0 && |pointers.data| % pointers.wordSize == 0
    requires |lengths.data| % lengths.wordSize == 0
    requires |lengths.Words()| == |pointers.Words()| + |rawValues.Words()|
    requires Decodable(rawValues.Words(), pointers.Words(), lengths.Words(), 0)
    modifies rawValues, pointers, lengths
    ensures rawValues.Valid() && rawValues.wordSize == old(rawValues.wordSize)
    ensures rawValues.Words() == MatchInverse(old(rawValues.Words()), old(pointers.Words()), old(lengths.Words()))
    ensures pointers.Valid() && pointers.data == [] && pointers.wordSize == old(pointers.wordSize)
    ensures lengths.Valid() && lengths.data == [] && lengths.wordSize == old(lengths.wordSize)
  {
    var symbols := DecodeLoop(rawValues, pointers, lengths);
    symbols.Swap(rawValues);
    pointers.Clear();
    lengths.Clear();
  }

  /** The decoding loop of inverseTransformMatchCoding, into a new block. */
  method DecodeLoop(rawValues: DataBlock, pointers: DataBlock, lengths: DataBlock) returns (symbols: DataBlock)
    requires rawValues.Valid() && pointers.Valid() && lengths.Valid()
    requires |rawValues.data| % rawValues.wordSize == 0 && |pointers.data| % pointers.wordSize == 0
    requires |lengths.data| % lengths.wordSize == 0
    requires Decodable(rawValues.Words(), pointers.Words(), lengths.Words(), 0)
    ensures fresh(symbols) && symbols.Valid() && symbols.wordSize == rawValues.wordSize
    ensures symbols.Words() == MatchInverse(rawValues.Words(), pointers.Words(), lengths.Words())
  {
    ghost var r0 := rawValues.Words();
    ghost var p0 := pointers.Words();
    ghost var l0 := lengths.Words();
    ghost var target := MatchInverse(r0, p0, l0);
    symbols := new DataBlock(0, rawValues.wordSize);
    assert symbols.Words() == [] by { WordsOfLength(symbols.data, symbols.wordSize); }
    var n: nat := 0;
    var t0 := pointers.GetReader();
    var t1 := lengths.GetReader();
    var t2 := rawValues.GetReader();
    assert r0[0..] == r0 && p0[0..] == p0 && l0[0..] == l0;
    DecodeAll(rawValues, pointers, lengths, symbols, t0, t1, t2, n, r0, p0, l0, target);
  }

  /** The loop of inverseTransformMatchCoding: one length at a time until
      the lengths reader is exhausted. */
  method DecodeAll(rawValues: DataBlock, pointers: DataBlock, lengths: DataBlock, symbols: DataBlock,
                   t0: BlockStepper, t1: BlockStepper, t2: BlockStepper, n: nat,
                   ghost r0: seq<U64>, ghost p0: seq<U64>, ghost l0: seq<U64>, ghost target: seq<U64>)
    requires Readers(t0, t1, t2, rawValues, pointers, lengths)
    requires symbols != rawValues && symbols != pointers && symbols != lengths
    requires Decoded(symbols, rawValues.wordSize, n)
    requires rawValues.Words() == r0 && pointers.Words() == p0 && lengths.Words() == l0
    requires InverseProgress(r0, p0, l0, t2.Index(), t0.Index(), t1.Index(), symbols.Words(), target)
    modifies symbols, t0, t1, t2
    ensures symbols.Valid() && symbols.wordSize == rawValues.wordSize && symbols.Words() == target
  {
    var k := n;
    while t1.IsValid()
      invariant Readers(t0, t1, t2, rawValues, pointers, lengths) && Decoded(symbols, rawValues.wordSize, k)
      invariant InverseProgress(r0, p0, l0, t2.Index(), t0.Index(), t1.Index(), symbols.Words(), target)
      decreases t1.end - t1.curr
    {
      k := InverseStep(rawValues, pointers, lengths, symbols, t0, t1, t2, k, r0, p0, l0, target);
    }
    assert l0[t1.Index()..] == [];
  }

  /** The three readers of the decoding loop, one per input block. */
  ghost predicate Readers(t0: BlockStepper, t1: BlockStepper, t2: BlockStepper,
                          rawValues: DataBlock, pointers: DataBlock, lengths: DataBlock)
    reads t0, t0.block, t1, t1.block, t2, t2.block
  {
    t0.Valid() && t0.block == pointers && t1.Valid() && t1.block == lengths &&
    t2.Valid() && t2.block == rawValues && t0 != t1 && t1 != t2 && t0 != t2
  }

  /** The block the symbols are decoded into. */
  ghost predicate Decoded(symbols: DataBlock, wordSize: nat, n: nat)
    reads symbols
  {
    symbols.Valid() && |symbols.data| % symbols.wordSize == 0 && symbols.wordSize == wordSize &&
    n == symbols.Size()
  }

  /** The body of the decoding loop: one length, then a raw value or a match. */
  method InverseStep(rawValues: DataBlock, pointers: DataBlock, lengths: DataBlock, symbols: DataBlock,
                     t0: BlockStepper, t1: BlockStepper, t2: BlockStepper, n: nat,
                     ghost r0: seq<U64>, ghost p0: seq<U64>, ghost l0: seq<U64>, ghost target: seq<U64>)
      returns (n': nat)
    requires Readers(t0, t1, t2, rawValues, pointers, lengths) && t1.curr < t1.end
    requires symbols != rawValues && symbols != pointers && symbols != lengths
    requires Decoded(symbols, rawValues.wordSize, n)
    requires rawValues.Words() == r0 && pointers.Words() == p0 && lengths.Words() == l0
    requires InverseProgress(r0, p0, l0, t2.Index(), t0.Index(), t1.Index(), symbols.Words(), target)
    modifies symbols, t0, t1, t2
    ensures Readers(t0, t1, t2, rawValues, pointers, lengths)
    ensures t1.end == old(t1.end) && t1.curr > old(t1.curr)
    ensures Decoded(symbols, rawValues.wordSize, n')
    ensures InverseProgress(r0, p0, l0, t2.Index(), t0.Index(), t1.Index(), symbols.Words(), target)
  {
    var length := t1.Get();
    if length == 0 {
      n' := LiteralStep(rawValues, pointers, lengths, symbols, t0, t1, t2, n, r0, p0, l0, target);
    } else {
      n' := CopyStep(rawValues, pointers, lengths, symbols, t0, t1, t2, n, r0, p0, l0, target);
    }
  }

  /** A length of 0: the next raw value is a symbol. */
  method LiteralStep(rawValues: DataBlock, pointers: DataBlock, lengths: DataBlock, symbols: DataBlock,
                     t0: BlockStepper, t1: BlockStepper, t2: BlockStepper, n: nat,
                     ghost r0: seq<U64>, ghost p0: seq<U64>, ghost l0: seq<U64>, ghost target: seq<U64>)
      returns (n': nat)
    requires Readers(t0, t1, t2, rawValues, pointers, lengths) && t1.curr < t1.end && t1.Get() == 0
    requires symbols != rawValues && symbols != pointers && symbols != lengths
    requires Decoded(symbols, rawValues.wordSize, n)
    requires rawValues.Words() == r0 && pointers.Words() == p0 && lengths.Words() == l0
    requires InverseProgress(r0, p0, l0, t2.Index(), t0.Index(), t1.Index(), symbols.Words(), target)
    modifies symbols, t1, t2
    ensures Readers(t0, t1, t2, rawValues, pointers, lengths)
    ensures t1.end == old(t1.end) && t1.curr > old(t1.curr)
    ensures Decoded(symbols, rawValues.wordSize, n')
    ensures InverseProgress(r0, p0, l0, t2.Index(), t0.Index(), t1.Index(), symbols.Words(), target)
  {
    InverseProgressLiteral(r0, p0, l0, t2.Index(), t0.Index(), t1.Index(), symbols.Words(), target);
    t1.Inc();
    assert t2.IsValid();
    symbols.PushBack(t2.Get());
    t2.Inc();
    n' := n + 1;
  }

  /** Any other length: the next pointer says where the match starts. */
  method CopyStep(rawValues: DataBlock, pointers: DataBlock, lengths: DataBlock, symbols: DataBlock,
                  t0: BlockStepper, t1: BlockStepper, t2: BlockStepper, n: nat,
                  ghost r0: seq<U64>, ghost p0: seq<U64>, ghost l0: seq<U64>, ghost target: seq<U64>)
      returns (n': nat)
    requires Readers(t0, t1, t2, rawValues, pointers, lengths) && t1.curr < t1.end && t1.Get() != 0
    requires symbols != rawValues && symbols != pointers && symbols != lengths
    requires Decoded(symbols, rawValues.wordSize, n)
    requires rawValues.Words() == r0 && pointers.Words() == p0 && lengths.Words() == l0
    requires InverseProgress(r0, p0, l0, t2.Index(), t0.Index(), t1.Index(), symbols.Words(), target)
    modifies symbols, t0, t1
    ensures Readers(t0, t1, t2, rawValues, pointers, lengths)
    ensures t1.end == old(t1.end) && t1.curr > old(t1.curr)
    ensures Decoded(symbols, rawValues.wordSize, n')
    ensures InverseProgress(r0, p0, l0, t2.Index(), t0.Index(), t1.Index(), symbols.Words(), target)
  {
    ghost var done := symbols.Words();
    InverseProgressMatch(r0, p0, l0, t2.Index(), t0.Index(), t1.Index(), done, target);
    var pointer, length := ReadMatch(rawValues, pointers, lengths, t0, t1, t2);
    n' := CopyMatch(symbols, n, pointer, length);
  }

  /** Read a match's length and pointer and advance both readers. */
  method ReadMatch(rawValues: DataBlock, pointers: DataBlock, lengths: DataBlock,
                   t0: BlockStepper, t1: BlockStepper, t2: BlockStepper) returns (pointer: U64, length: U64)
    requires Readers(t0, t1, t2, rawValues, pointers, lengths) && t1.curr < t1.end && t0.Index() < pointers.Size()
    modifies t0, t1
    ensures Readers(t0, t1, t2, rawValues, pointers, lengths)
    ensures t1.end == old(t1.end) && t1.curr > old(t1.curr)
    ensures t0.Index() == old(t0.Index()) + 1 && t1.Index() == old(t1.Index()) + 1
    ensures old(t0.Index()) < |pointers.Words()| && pointer == pointers.Words()[old(t0.Index())]
    ensures old(t1.Index()) < |lengths.Words()| && length == lengths.Words()[old(t1.Index())]
  {
    length := t1.Get();
    t1.Inc();
    assert t0.IsValid();
    pointer := t0.Get();
    t0.Inc();
  }
}
