// The gabacify/transformify helpers: packing symbols into a little-endian
// byte buffer and back, and the min/max scan the analysis runs over a
// stream before it picks binarization parameters.
module Helpers {
  import opened Bytes
  import opened DataBlocks

  // ---------------------------------------------------------------------------
  // generateByteBuffer / generateSymbolStream

  /** Byte k of a word of `n` bytes is `(v >> 8k) & 0xff`. */
  lemma {:induction false} LEBytesAt(v: nat, n: nat, k: nat)
    requires k < n
    ensures LEBytes(v, n)[k] == (v / Pow256(k)) % 256
    decreases k
  {
    if k > 0 {
      LEBytesAt(v / 256, n - 1, k - 1);
      DivDiv(v, 256, Pow256(k - 1));
    }
  }

  lemma {:induction false} DivDiv(x: nat, a: nat, b: nat)
    requires a >= 1 && b >= 1
    ensures x / a / b == x / (a * b)
  {
    var q := x / a / b;
    var r := (x / a) % b * a + x % a;
    assert x == a * (x / a) + x % a;
    assert x / a == b * q + (x / a) % b;
    assert (x / a) % b * a + x % a < a * b by {
      DigitBound(a, b, (x / a) % b, x % a);
    }
    assert x == (a * b) * q + r by {
      MulDistributes(a, b, q, (x / a) % b);
    }
    DivModUnique(x, a * b, q, r);
  }

  lemma {:induction false} EncodeWordsAt(s: seq<int>, ws: nat, i: nat, k: nat)
    requires i < |s| && k < ws
    ensures i * ws + k < |EncodeWords(s, ws)|
    ensures EncodeWords(s, ws)[i * ws + k] == WordBytes(s[i], ws)[k]
    decreases i
  {
    var e := EncodeWords(s, ws);
    var head := WordBytes(s[0], ws);
    var tail := EncodeWords(s[1..], ws);
    assert e == head + tail;
    if i == 0 {
      assert i * ws + k == k;
    } else {
      EncodeWordsAt(s[1..], ws, i - 1, k);
      var j := (i - 1) * ws + k;
      MulSucc(i - 1, ws);
      assert j + ws == i * ws + k;
      assert e[j + ws] == tail[j];
    }
  }

  lemma {:induction false} MulSucc(i: nat, ws: nat)
    ensures (i + 1) * ws == i * ws + ws
  {
  }

  /** generateByteBuffer: each symbol contributes its low `wordSize` bytes,
      least significant first. Word sizes other than 1, 2, 4 and 8 abort. */
  method GenerateByteBuffer(symbols: seq<U64>, wordSize: nat) returns (buffer: seq<Byte>)
    requires Known(wordSize)
    ensures buffer == EncodeWords(symbols, wordSize)
    ensures |buffer| == |symbols| * wordSize
    ensures forall i, k :: 0 <= i < |symbols| && 0 <= k < wordSize ==>
              buffer[i * wordSize + k] == (symbols[i] / Pow256(k)) % 256
  {
    buffer := [];
    var i := 0;
    while i < |symbols|
      invariant 0 <= i <= |symbols|
      invariant buffer == EncodeWords(symbols[..i], wordSize)
    {
      var symbol := symbols[i];
      EncodeWordsSnoc(symbols[..i], symbol, wordSize);
      assert symbols[..i + 1] == symbols[..i] + [symbol];
      buffer := buffer + WordBytes(symbol, wordSize);
      i := i + 1;
    }
    assert symbols[..i] == symbols;
    EncodeWordsBytes(symbols, wordSize);
  }

  /** Byte k of word i of an encoding is byte k of the i-th value. */
  lemma {:induction false} EncodeWordsBytes(s: seq<U64>, ws: nat)
    requires Known(ws)
    ensures |EncodeWords(s, ws)| == |s| * ws
    ensures forall i, k :: 0 <= i < |s| && 0 <= k < ws ==>
              EncodeWords(s, ws)[i * ws + k] == (s[i] / Pow256(k)) % 256
  {
    forall i, k | 0 <= i < |s| && 0 <= k < ws
      ensures EncodeWords(s, ws)[i * ws + k] == (s[i] / Pow256(k)) % 256
    {
      EncodeWordsAt(s, ws, i, k);
      ModSmall(s[i], TWO_64);
      LEBytesAt(s[i], ws, k);
    }
  }

  /** generateSymbolStream: every `wordSize` bytes, read little-endian, make
      one symbol; the buffer must split into whole words. */
  method GenerateSymbolStream(buffer: seq<Byte>, wordSize: nat) returns (symbols: seq<U64>)
    requires Known(wordSize) && |buffer| % wordSize == 0
    ensures symbols == WordsOf(buffer, wordSize)
    ensures |symbols| == |buffer| / wordSize
    ensures EncodeWords(symbols, wordSize) == buffer
  {
    symbols := [];
    var symbolsSize := |buffer| / wordSize;
    ghost var words := WordsOf(buffer, wordSize);
    WordsOfLength(buffer, wordSize);
    if |buffer| == 0 {
      EncodeWordsOfWordsOf(buffer, wordSize);
      return;
    }
    symbols := seq(symbolsSize, _ => 0);
    var symbolsIdx := 0;
    var i := 0;
    while i < |buffer|
      invariant 0 <= symbolsIdx <= symbolsSize && i == symbolsIdx * wordSize
      invariant |symbols| == symbolsSize
      invariant symbols[..symbolsIdx] == words[..symbolsIdx]
      decreases |buffer| - i
    {
      symbols, symbolsIdx, i := SymbolStep(buffer, wordSize, words, symbols, symbolsIdx, i);
    }
    LastWord(|buffer|, wordSize, symbolsIdx);
    assert symbols == symbols[..symbolsIdx];
    EncodeWordsOfWordsOf(buffer, wordSize);
  }

  /** One pass of the loop of generateSymbolStream: the word at byte i
      becomes symbol number idx. */
  method SymbolStep(buffer: seq<Byte>, wordSize: nat, ghost words: seq<U64>, symbols: seq<U64>, idx: nat, i: nat)
      returns (symbols': seq<U64>, idx': nat, i': nat)
    requires Known(wordSize) && |buffer| % wordSize == 0 && i < |buffer|
    requires words == WordsOf(buffer, wordSize) && |words| == |buffer| / wordSize
    requires idx <= |words| && i == idx * wordSize && |symbols| == |words|
    requires symbols[..idx] == words[..idx]
    ensures idx' == idx + 1 <= |words| && i' == idx' * wordSize && |symbols'| == |symbols|
    ensures symbols'[..idx'] == words[..idx']
    ensures i' - i == wordSize
  {
    NextWord(|buffer|, wordSize, idx);
    WordsOfIndex(buffer, wordSize, idx);
    var symbol := WordValue(buffer[i..i + wordSize], wordSize);
    PrefixExtends(symbols, words, idx, symbol);
    symbols' := symbols[idx := symbol];
    idx' := idx + 1;
    i' := i + wordSize;
  }

  /** Storing the next element of `w` extends a prefix shared with `w`. */
  lemma {:induction false} PrefixExtends<T>(a: seq<T>, w: seq<T>, idx: nat, v: T)
    requires idx < |a| == |w| && a[..idx] == w[..idx] && v == w[idx]
    ensures a[idx := v][..idx + 1] == w[..idx + 1]
  {
    assert forall j :: 0 <= j < idx ==> a[j] == a[..idx][j];
  }

  /** Inside an aligned buffer the next word starts before its end. */
  lemma {:induction false} NextWord(len: nat, ws: nat, idx: nat)
    requires ws >= 1 && len % ws == 0 && idx * ws < len
    ensures idx < len / ws && idx * ws + ws <= len
    ensures (idx + 1) * ws == idx * ws + ws
  {
    DivBounds(len, ws);
    if idx >= len / ws {
      MulMonotone(len / ws, idx, ws);
    }
    IndexInBounds(idx, len, ws);
  }

  /** Reaching the end of an aligned buffer means every word was read. */
  lemma {:induction false} LastWord(len: nat, ws: nat, idx: nat)
    requires ws >= 1 && len % ws == 0 && idx <= len / ws && idx * ws >= len
    ensures idx == len / ws
  {
    if idx < len / ws {
      IndexInBounds(idx, len, ws);
    }
  }

  // ---------------------------------------------------------------------------
  // deriveMinMax

  /** The smallest and largest value of the signed type of `ws` bytes; the
      table deriveMinMax looks the word size up in. */
  function TypeMin(ws: nat): (r: I64)
    requires Known(ws)
    ensures r < 0
  {
    if ws == 1 then -0x80 else if ws == 2 then -0x8000
    else if ws == 4 then INT32_MIN else -(TWO_63 as int)
  }

  function TypeMax(ws: nat): (r: I64)
    requires Known(ws)
    ensures r > 0
  {
    if ws == 1 then 0x7F else if ws == 2 then 0x7FFF
    else if ws == 4 then INT32_MAX else TWO_63 - 1
  }

  /** The scan of deriveMinMax<int64_t> as written: `symbol` is a uint64_t, so
      both comparisons with the int64_t bounds are done on their uint64_t
      images, and a new bound is the symbol converted back. The scan stops
      once the bounds equal the type's range. */
  function ScanAsWritten(s: seq<I64>, ws: nat, lo: I64, hi: I64): (r: (I64, I64))
    requires Known(ws)
    decreases |s|
  {
    if s == [] then (lo, hi)
    else
      var symbol := Unsigned64(s[0]);
      var lo' := if symbol < Unsigned64(lo) then Signed64(symbol) else lo;
      var hi' := if symbol > Unsigned64(hi) then Signed64(symbol) else hi;
      if lo' == TypeMin(ws) && hi' == TypeMax(ws) then (lo', hi')
      else ScanAsWritten(s[1..], ws, lo', hi')
  }

  /** deriveMinMaxSigned as written: (0, 0) for no symbols, otherwise the scan
      started from min = the type's maximum and max = the type's minimum. */
  function DerivedMinMaxAsWritten(s: seq<I64>, ws: nat): (r: (I64, I64))
    requires Known(ws)
  {
    if s == [] then (0, 0) else ScanAsWritten(s, ws, TypeMax(ws), TypeMin(ws))
  }

  method DeriveMinMaxAsWritten(symbols: seq<I64>, wordSize: nat) returns (min: I64, max: I64)
    requires Known(wordSize)
    ensures (min, max) == DerivedMinMaxAsWritten(symbols, wordSize)
  {
    if |symbols| == 0 {
      return 0, 0;
    }
    min := TypeMax(wordSize);
    max := TypeMin(wordSize);
    var i := 0;
    while i < |symbols|
      invariant 0 <= i <= |symbols|
      invariant ScanAsWritten(symbols[i..], wordSize, min, max) == DerivedMinMaxAsWritten(symbols, wordSize)
    {
      assert symbols[i..][1..] == symbols[i + 1..];
      var symbol := Unsigned64(symbols[i]);
      if symbol < Unsigned64(min) {
        min := Signed64(symbol);
      }
      if symbol > Unsigned64(max) {
        max := Signed64(symbol);
      }
      if min == TypeMin(wordSize) && max == TypeMax(wordSize) {
        return;
      }
      i := i + 1;
    }
  }

  /** As written, a non-negative symbol never exceeds the uint64_t image of
      a negative max, so the max of non-negative symbols stays at the type's
      minimum. */
  lemma {:induction false} ScanAsWrittenKeepsMax(s: seq<I64>, ws: nat, lo: I64, hi: I64)
    requires Known(ws) && lo >= 0 && hi < 0
    requires forall k :: 0 <= k < |s| ==> s[k] >= 0
    ensures ScanAsWritten(s, ws, lo, hi).1 == hi
    decreases |s|
  {
    if s != [] {
      var symbol := Unsigned64(s[0]);
      var lo' := if symbol < Unsigned64(lo) then Signed64(symbol) else lo;
      assert symbol == s[0] && Unsigned64(hi) == hi + TWO_64;
      ScanAsWrittenKeepsMax(s[1..], ws, lo', hi);
    }
  }

  lemma {:induction false} DerivedMaxAsWrittenStuck(s: seq<I64>, ws: nat)
    requires Known(ws) && |s| > 0
    requires forall k :: 0 <= k < |s| ==> s[k] >= 0
    ensures DerivedMinMaxAsWritten(s, ws).1 == TypeMin(ws) < s[0]
  {
    ScanAsWrittenKeepsMax(s, ws, TypeMax(ws), TypeMin(ws));
  }

  /** The single symbol 5 with word size 1: min 5 but max -128. */
  lemma {:induction false} DerivedMinMaxAsWrittenExample()
    ensures DerivedMinMaxAsWritten([5], 1) == (5, -0x80)
  {
    DerivedMaxAsWrittenStuck([5], 1);
    assert Unsigned64(5) == 5 && Unsigned64(0x7F) == 0x7F;
  }

  /** The scan with the comparisons done on int64_t, as the signed variant
      evidently intends. */
  function Scan(s: seq<I64>, ws: nat, lo: I64, hi: I64): (r: (I64, I64))
    requires Known(ws)
    decreases |s|
  {
    if s == [] then (lo, hi)
    else
      var lo' := if s[0] < lo then s[0] else lo;
      var hi' := if s[0] > hi then s[0] else hi;
      if lo' == TypeMin(ws) && hi' == TypeMax(ws) then (lo', hi')
      else Scan(s[1..], ws, lo', hi')
  }

  function DerivedMinMax(s: seq<I64>, ws: nat): (r: (I64, I64))
    requires Known(ws)
  {
    if s == [] then (0, 0) else Scan(s, ws, TypeMax(ws), TypeMin(ws))
  }

  /** deriveMinMaxSigned with signed comparisons. */
  method DeriveMinMax(symbols: seq<I64>, wordSize: nat) returns (min: I64, max: I64)
    requires Known(wordSize)
    ensures (min, max) == DerivedMinMax(symbols, wordSize)
    ensures |symbols| > 0 && InTypeRange(symbols, wordSize) ==>
              min in symbols && max in symbols &&
              forall k :: 0 <= k < |symbols| ==> min <= symbols[k] <= max
    ensures |symbols| > 0 && NonNegative(symbols) ==>
              max in symbols && forall k :: 0 <= k < |symbols| ==> min <= symbols[k] <= max
  {
    DerivedMinMaxBounds(symbols, wordSize);
    if |symbols| == 0 {
      return 0, 0;
    }
    min := TypeMax(wordSize);
    max := TypeMin(wordSize);
    var i := 0;
    while i < |symbols|
      invariant 0 <= i <= |symbols|
      invariant Scan(symbols[i..], wordSize, min, max) == DerivedMinMax(symbols, wordSize)
    {
      assert symbols[i..][1..] == symbols[i + 1..];
      var symbol := symbols[i];
      if symbol < min {
        min := symbol;
      }
      if symbol > max {
        max := symbol;
      }
      if min == TypeMin(wordSize) && max == TypeMax(wordSize) {
        return;
      }
      i := i + 1;
    }
  }

  predicate InTypeRange(s: seq<I64>, ws: nat)
    requires Known(ws)
  {
    forall k :: 0 <= k < |s| ==> TypeMin(ws) <= s[k] <= TypeMax(ws)
  }

  predicate NonNegative(s: seq<I64>)
  {
    forall k :: 0 <= k < |s| ==> s[k] >= 0
  }

  /** Running minimum and maximum without the early stop. */
  function FoldMin(lo: int, s: seq<I64>): int
    decreases |s|
  {
    if s == [] then lo else FoldMin(if s[0] < lo then s[0] else lo, s[1..])
  }

  function FoldMax(hi: int, s: seq<I64>): int
    decreases |s|
  {
    if s == [] then hi else FoldMax(if s[0] > hi then s[0] else hi, s[1..])
  }

  lemma {:induction false} FoldMinIsMin(lo: int, s: seq<I64>)
    ensures FoldMin(lo, s) <= lo
    ensures forall k :: 0 <= k < |s| ==> FoldMin(lo, s) <= s[k]
    ensures FoldMin(lo, s) == lo || FoldMin(lo, s) in s
    decreases |s|
  {
    if s != [] {
      FoldMinIsMin(if s[0] < lo then s[0] else lo, s[1..]);
      assert forall k :: 1 <= k < |s| ==> s[k] == s[1..][k - 1];
    }
  }

  lemma {:induction false} FoldMaxIsMax(hi: int, s: seq<I64>)
    ensures FoldMax(hi, s) >= hi
    ensures forall k :: 0 <= k < |s| ==> FoldMax(hi, s) >= s[k]
    ensures FoldMax(hi, s) == hi || FoldMax(hi, s) in s
    decreases |s|
  {
    if s != [] {
      FoldMaxIsMax(if s[0] > hi then s[0] else hi, s[1..]);
      assert forall k :: 1 <= k < |s| ==> s[k] == s[1..][k - 1];
    }
  }

  /** The early stop loses nothing when every symbol fits the type, nor when
      no bound can reach the type's (negative) minimum. */
  lemma {:induction false} ScanIsFold(s: seq<I64>, ws: nat, lo: I64, hi: I64)
    requires Known(ws)
    requires InTypeRange(s, ws) || (NonNegative(s) && lo >= 0)
    ensures Scan(s, ws, lo, hi) == (FoldMin(lo, s), FoldMax(hi, s))
    decreases |s|
  {
    if s != [] {
      var lo' := if s[0] < lo then s[0] else lo;
      var hi' := if s[0] > hi then s[0] else hi;
      assert InTypeRange(s, ws) ==> InTypeRange(s[1..], ws);
      assert NonNegative(s) ==> NonNegative(s[1..]);
      if lo' == TypeMin(ws) && hi' == TypeMax(ws) {
        FoldMinIsMin(lo', s[1..]);
        FoldMaxIsMax(hi', s[1..]);
      } else {
        ScanIsFold(s[1..], ws, lo', hi');
      }
    }
  }

  lemma {:induction false} DerivedMinMaxBounds(s: seq<I64>, ws: nat)
    requires Known(ws)
    ensures |s| > 0 && InTypeRange(s, ws) ==>
              DerivedMinMax(s, ws).0 in s && DerivedMinMax(s, ws).1 in s &&
              forall k :: 0 <= k < |s| ==> DerivedMinMax(s, ws).0 <= s[k] <= DerivedMinMax(s, ws).1
    ensures |s| > 0 && NonNegative(s) ==>
              DerivedMinMax(s, ws).1 in s &&
              forall k :: 0 <= k < |s| ==> DerivedMinMax(s, ws).0 <= s[k] <= DerivedMinMax(s, ws).1
  {
    if |s| > 0 && (InTypeRange(s, ws) || NonNegative(s)) {
      ScanIsFold(s, ws, TypeMax(ws), TypeMin(ws));
      FoldMinIsMin(TypeMax(ws), s);
      FoldMaxIsMax(TypeMin(ws), s);
    }
  }

  /** deriveMinMaxUnsigned: plain running bounds from UINT64_MAX and 0. */
  method DeriveMinMaxUnsigned(symbols: seq<U64>) returns (min: U64, max: U64)
    ensures symbols == [] ==> min == TWO_64 - 1 && max == 0
    ensures symbols != [] ==> min in symbols && max in symbols
    ensures forall k :: 0 <= k < |symbols| ==> min <= symbols[k] <= max
  {
    min := TWO_64 - 1;
    max := 0;
    var i := 0;
    while i < |symbols|
      invariant 0 <= i <= |symbols|
      invariant i == 0 ==> min == TWO_64 - 1 && max == 0
      invariant i > 0 ==> min in symbols[..i] && max in symbols[..i]
      invariant forall k :: 0 <= k < i ==> min <= symbols[k] <= max
    {
      var v := symbols[i];
      if v < min {
        min := v;
      }
      if v > max {
        max := v;
      }
      i := i + 1;
    }
    assert symbols[..i] == symbols;
  }
}
