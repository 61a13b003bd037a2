// Differential coding (diff_coding.cpp): every word is replaced by its
// difference to the previous word, in uint64_t arithmetic, and the inverse
// adds the differences back up. Both work in place through a BlockStepper.
//
// The specification functions take the modulus m of the block's words
// (WordMod of its word size). Because every such modulus divides 2^64, the
// uint64_t wrap-around of the source disappears once a result is stored in
// a word; the methods below prove that step by step.
module DiffCoding {
  import opened Bytes
  import opened DataBlocks

  /** The word before position i, and 0 before the first. */
  function Previous(s: seq<int>, i: nat): int
    requires i <= |s|
  {
    if i == 0 then 0 else s[i - 1]
  }

  /** What transformDiffCoding leaves in a block of word modulus m: each word
      minus its predecessor, modulo m. */
  function DiffForward(s: seq<int>, m: nat): (r: seq<int>)
    requires m >= 1
    ensures |r| == |s|
  {
    seq(|s|, i requires 0 <= i < |s| => (s[i] - Previous(s, i)) % m)
  }

  /** Sum of the first i differences. */
  function PrefixSum(d: seq<int>, i: nat): int
    requires i <= |d|
  {
    if i == 0 then 0 else PrefixSum(d, i - 1) + d[i - 1]
  }

  /** What inverseTransformDiffCoding leaves in a block of word modulus m:
      the running sums, modulo m. */
  function DiffInverse(d: seq<int>, m: nat): (r: seq<int>)
    requires m >= 1
    ensures |r| == |d|
  {
    seq(|d|, i requires 0 <= i < |d| => PrefixSum(d, i + 1) % m)
  }

  lemma ModOfMod(x: int, m: nat)
    requires m >= 1
    ensures (x % m) % m == x % m
  {
    ModSmall(x % m, m);
  }

  /** A sum a congruent to the word p, plus the stored difference x - p,
      is congruent to the word x. */
  lemma RestoreStep(a: int, p: int, x: int, diff: int, sum: int, m: nat)
    requires m >= 1 && a % m == p && 0 <= p < m && 0 <= x < m
    requires diff == (x - p) % m && sum == a + diff
    ensures sum % m == x
  {
    ModOfMod(x - p, m);
    ModCongruent((x - p) % m, x - p, a, m);
    ModSmall(p, m);
    ModCongruent(a, p, x - p, m);
    ModSmall(x, m);
  }

  /** The running sum of the differences is, modulo m, the last word. */
  lemma {:induction false} PrefixSumOfForward(s: seq<int>, m: nat, i: nat)
    requires m >= 1 && AllBelow(s, m) && i <= |s|
    ensures PrefixSum(DiffForward(s, m), i) % m == Previous(s, i)
  {
    if i > 0 {
      PrefixSumOfForward(s, m, i - 1);
      assert 0 <= Previous(s, i - 1) < m && 0 <= s[i - 1] < m;
      PrefixSumStep(s, m, i);
    }
  }

  lemma PrefixSumStep(s: seq<int>, m: nat, i: nat)
    requires m >= 1 && 0 < i <= |s|
    requires 0 <= Previous(s, i - 1) < m && 0 <= s[i - 1] < m
    requires PrefixSum(DiffForward(s, m), i - 1) % m == Previous(s, i - 1)
    ensures PrefixSum(DiffForward(s, m), i) % m == s[i - 1]
  {
    var d := DiffForward(s, m);
    RestoreStep(PrefixSum(d, i - 1), Previous(s, i - 1), s[i - 1], d[i - 1], PrefixSum(d, i), m);
  }

  /** The inverse undoes the forward transform on words below the modulus. */
  lemma InverseOfForward(s: seq<int>, m: nat)
    requires m >= 1 && AllBelow(s, m)
    ensures DiffInverse(DiffForward(s, m), m) == s
  {
    var d := DiffForward(s, m);
    forall i | 0 <= i < |s|
      ensures DiffInverse(d, m)[i] == s[i]
    {
      PrefixSumOfForward(s, m, i + 1);
    }
  }

  /** The difference between the reduced sum a + y and a word congruent
      to a is y. */
  lemma DifferenceStep(a: int, p: int, y: int, m: nat)
    requires m >= 1 && p % m == a % m
    ensures ((a + y) % m - p) % m == y % m
  {
    ModCongruent((a + y) % m, a + y, 0 - p, m) by { ModOfMod(a + y, m); }
    ModCongruent(p, a, y - p, m);
  }

  /** The forward transform undoes the inverse on differences below the modulus. */
  lemma ForwardOfInverse(d: seq<int>, m: nat)
    requires m >= 1 && AllBelow(d, m)
    ensures DiffForward(DiffInverse(d, m), m) == d
  {
    var x := DiffInverse(d, m);
    forall i | 0 <= i < |d|
      ensures DiffForward(x, m)[i] == d[i]
    {
      var a := PrefixSum(d, i);
      if i > 0 {
        ModOfMod(a, m);
      } else {
        ModSmall(0, m);
      }
      DifferenceStep(a, Previous(x, i), d[i], m);
      ModSmall(d[i], m);
    }
  }

  /** Diff coding a block's words and then inverting restores them. */
  lemma BlockRoundTrip(data: seq<Byte>, ws: nat)
    requires ws >= 1
    ensures DiffInverse(DiffForward(WordsOf(data, ws), WordMod(ws)), WordMod(ws)) == WordsOf(data, ws)
  {
    WordsBelow(data, ws);
    InverseOfForward(WordsOf(data, ws), WordMod(ws));
  }

  // ---------------------------------------------------------------------------
  // The in-place transforms

  /** transformDiffCoding: replace every word by its difference to the
      previous word. */
  method TransformDiffCoding(b: DataBlock)
    requires b.Valid() && |b.data| % b.wordSize == 0
    modifies b
    ensures b.Valid() && b.wordSize == old(b.wordSize) && |b.data| == old(|b.data|)
    ensures b.Words() == DiffForward(old(b.Words()), WordMod(b.wordSize))
  {
    ghost var w0 := b.Words();
    ghost var m := WordMod(b.wordSize);
    var previousSymbol: U64 := 0;
    var r := b.GetReader();
    while r.IsValid()
      invariant r.Valid() && r.block == b
      invariant b.wordSize == old(b.wordSize) && |b.data| == old(|b.data|)
      invariant r.Index() <= |w0| == |b.Words()|
      invariant previousSymbol == Previous(w0, r.Index())
      invariant b.Words() == DiffForward(w0, m)[..r.Index()] + w0[r.Index()..]
      decreases r.end - r.curr
    {
      previousSymbol := ForwardStep(b, r, w0, previousSymbol);
    }
  }

  /** The body of the loop of transformDiffCoding for the word under r. */
  method ForwardStep(b: DataBlock, r: BlockStepper, ghost w0: seq<U64>, previousSymbol: U64)
    returns (next: U64)
    requires r.Valid() && r.block == b && r.curr < r.end
    requires r.Index() <= |w0| == |b.Words()|
    requires previousSymbol == Previous(w0, r.Index())
    requires b.Words() == DiffForward(w0, WordMod(b.wordSize))[..r.Index()] + w0[r.Index()..]
    modifies b, r
    ensures r.Valid() && r.block == b && r.end == old(r.end) && r.curr > old(r.curr)
    ensures b.wordSize == old(b.wordSize) && |b.data| == old(|b.data|)
    ensures r.Index() <= |w0| == |b.Words()|
    ensures next == Previous(w0, r.Index())
    ensures b.Words() == DiffForward(w0, WordMod(b.wordSize))[..r.Index()] + w0[r.Index()..]
  {
    ghost var k := r.Index();
    var symbol := r.Get();
    var diff := Wrap64(symbol - previousSymbol);
    r.Set(diff);
    ForwardWord(w0, b.wordSize, k, previousSymbol, symbol);
    AdvancePrefix(DiffForward(w0, WordMod(b.wordSize)), w0, k, Trunc(diff, b.wordSize));
    next := symbol;
    r.Inc();
    assert r.Index() == k + 1;
  }

  /** inverseTransformDiffCoding: replace every difference by the running
      sum, kept in a uint64_t that is not reduced to the word size. */
  method InverseTransformDiffCoding(b: DataBlock)
    requires b.Valid() && |b.data| % b.wordSize == 0
    modifies b
    ensures b.Valid() && b.wordSize == old(b.wordSize) && |b.data| == old(|b.data|)
    ensures b.Words() == DiffInverse(old(b.Words()), WordMod(b.wordSize))
  {
    ghost var w0 := b.Words();
    ghost var m := WordMod(b.wordSize);
    var previousSymbol: U64 := 0;
    var r := b.GetReader();
    while r.IsValid()
      invariant r.Valid() && r.block == b
      invariant b.wordSize == old(b.wordSize) && |b.data| == old(|b.data|)
      invariant r.Index() <= |w0| == |b.Words()|
      invariant previousSymbol % m == PrefixSum(w0, r.Index()) % m
      invariant b.Words() == DiffInverse(w0, m)[..r.Index()] + w0[r.Index()..]
      decreases r.end - r.curr
    {
      previousSymbol := InverseStep(b, r, w0, previousSymbol);
    }
  }

  /** The body of the loop of inverseTransformDiffCoding for the word under r. */
  method InverseStep(b: DataBlock, r: BlockStepper, ghost w0: seq<U64>, previousSymbol: U64)
    returns (next: U64)
    requires r.Valid() && r.block == b && r.curr < r.end
    requires r.Index() <= |w0| == |b.Words()|
    requires previousSymbol % WordMod(b.wordSize) == PrefixSum(w0, r.Index()) % WordMod(b.wordSize)
    requires b.Words() == DiffInverse(w0, WordMod(b.wordSize))[..r.Index()] + w0[r.Index()..]
    modifies b, r
    ensures r.Valid() && r.block == b && r.end == old(r.end) && r.curr > old(r.curr)
    ensures b.wordSize == old(b.wordSize) && |b.data| == old(|b.data|)
    ensures r.Index() <= |w0| == |b.Words()|
    ensures next % WordMod(b.wordSize) == PrefixSum(w0, r.Index()) % WordMod(b.wordSize)
    ensures b.Words() == DiffInverse(w0, WordMod(b.wordSize))[..r.Index()] + w0[r.Index()..]
  {
    ghost var k := r.Index();
    var symbol := r.Get();
    r.Set(Wrap64(previousSymbol + symbol));
    InverseWord(w0, b.wordSize, k, previousSymbol, symbol);
    AdvancePrefix(DiffInverse(w0, WordMod(b.wordSize)), w0, k, Trunc(Wrap64(previousSymbol + symbol), b.wordSize));
    next := Wrap64(previousSymbol + symbol);
    r.Inc();
    assert r.Index() == k + 1;
  }

  /** Overwriting word k of "done up to k, original from k" with the done
      value moves the boundary by one. */
  lemma AdvancePrefix<T>(done: seq<T>, orig: seq<T>, k: nat, x: T)
    requires |done| == |orig| && k < |orig| && done[k] == x
    ensures (done[..k] + orig[k..])[k := x] == done[..k + 1] + orig[k + 1..]
  {
  }

  /** One word of the forward transform: what set stores is the
      specified difference. */
  lemma ForwardWord(w0: seq<int>, ws: nat, k: nat, prev: int, symbol: int)
    requires k < |w0| && symbol == w0[k] && prev == Previous(w0, k)
    ensures DiffForward(w0, WordMod(ws))[k] == Trunc(Wrap64(symbol - prev), ws)
  {
    TruncWrap(symbol - prev, ws);
  }

  /** One word of the inverse: a uint64_t sum congruent to the exact prefix
      sum stores the specified word and stays congruent to the next prefix sum. */
  lemma InverseWord(w0: seq<int>, ws: nat, k: nat, prev: int, symbol: int)
    requires k < |w0| && symbol == w0[k]
    requires prev % WordMod(ws) == PrefixSum(w0, k) % WordMod(ws)
    ensures DiffInverse(w0, WordMod(ws))[k] == Trunc(Wrap64(prev + symbol), ws)
    ensures Wrap64(prev + symbol) % WordMod(ws) == PrefixSum(w0, k + 1) % WordMod(ws)
  {
    var m := WordMod(ws);
    TruncWrap(prev + symbol, ws);
    ModCongruent(prev, PrefixSum(w0, k), symbol, m);
  }
}
