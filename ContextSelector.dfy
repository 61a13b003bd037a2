// ContextSelector: the index of a context model in the context table, from
// a context set and a bin index, for BI, TU and EG. The offsets and the set
// length come from context_tables.h, which is not part of this model; they
// are a Layout parameter.
module ContextSelector {
  import opened Bytes

  /** OFFSET_BINARY_0, OFFSET_TRUNCATED_UNARY_0, OFFSET_EXPONENTIAL_GOLOMB_0
      and CONTEXT_SET_LENGTH of the context table. */
  datatype Layout = Layout(offsetBinary: nat, offsetTruncatedUnary: nat, offsetExpGolomb: nat,
                           setLength: nat)

  /** The asserted bounds: a bin inside its set, and a set below the number
      of sets the binarization has. */
  predicate InSet(layout: Layout, sets: nat, contextSetIdx: nat, binIdx: nat)
  {
    binIdx < layout.setLength && contextSetIdx < sets
  }

  /** Sets of setLength contexts laid out one after another from offset. */
  function Index(offset: nat, setLength: nat, contextSetIdx: nat, binIdx: nat): (r: nat)
    requires binIdx < setLength
    ensures r >= offset
    ensures (r - offset) / setLength == contextSetIdx
    ensures (r - offset) % setLength == binIdx
  {
    var r := offset + contextSetIdx * setLength + binIdx;
    DivModUnique(r - offset, setLength, contextSetIdx, binIdx);
    r
  }

  function ContextForBi(layout: Layout, contextSetIdx: nat, binIdx: nat): (r: nat)
    requires InSet(layout, 16, contextSetIdx, binIdx)
    ensures r >= layout.offsetBinary
    ensures (r - layout.offsetBinary) / layout.setLength == contextSetIdx
    ensures (r - layout.offsetBinary) % layout.setLength == binIdx
  {
    Index(layout.offsetBinary, layout.setLength, contextSetIdx, binIdx)
  }

  function ContextForTu(layout: Layout, contextSetIdx: nat, binIdx: nat): (r: nat)
    requires InSet(layout, 68, contextSetIdx, binIdx)
    ensures r >= layout.offsetTruncatedUnary
    ensures (r - layout.offsetTruncatedUnary) / layout.setLength == contextSetIdx
    ensures (r - layout.offsetTruncatedUnary) % layout.setLength == binIdx
  {
    Index(layout.offsetTruncatedUnary, layout.setLength, contextSetIdx, binIdx)
  }

  function ContextForEg(layout: Layout, contextSetIdx: nat, binIdx: nat): (r: nat)
    requires InSet(layout, 16, contextSetIdx, binIdx)
    ensures r >= layout.offsetExpGolomb
    ensures (r - layout.offsetExpGolomb) / layout.setLength == contextSetIdx
    ensures (r - layout.offsetExpGolomb) % layout.setLength == binIdx
  {
    Index(layout.offsetExpGolomb, layout.setLength, contextSetIdx, binIdx)
  }

  /** Different (set, bin) pairs get different contexts. */
  lemma {:induction false} IndexInjective(offset: nat, setLength: nat, s1: nat, b1: nat, s2: nat, b2: nat)
    requires b1 < setLength && b2 < setLength
    ensures Index(offset, setLength, s1, b1) == Index(offset, setLength, s2, b2) <==> s1 == s2 && b1 == b2
  {
  }

  /** The first bin of set k + 1 follows the last bin of set k. */
  lemma {:induction false} SetsAdjacent(offset: nat, setLength: nat, k: nat)
    requires setLength >= 1
    ensures Index(offset, setLength, k + 1, 0) == Index(offset, setLength, k, setLength - 1) + 1
  {
  }

  // ---------------------------------------------------------------------------
  // The context sets the encoder and decoder pass: the order-1 and order-2
  // history of encoding.cpp and decoding.cpp

  /** What a coded symbol contributes to the history: its magnitude,
      capped at 3. */
  function PrevClass(symbol: int): (r: nat)
    ensures r <= 3
    ensures r == 3 <==> symbol >= 3 || symbol <= -3
    ensures r < 3 ==> r == symbol || r == -symbol
  {
    var m := if symbol < 0 then -symbol else symbol;
    if m > 3 then 3 else m
  }

  /** (prevValue << 2) + prevPrevValue. */
  function Offset(prev: nat, prevPrev: nat): nat
  {
    prev * 4 + prevPrev
  }

  /** Histories of at most 3 give offsets below 16, the bound getContextForBi
      and getContextForEg assert, and distinct histories distinct offsets. */
  lemma {:induction false} OffsetBound(prev: nat, prevPrev: nat, prev': nat, prevPrev': nat)
    requires prev <= 3 && prevPrev <= 3 && prev' <= 3 && prevPrev' <= 3
    ensures Offset(prev, prevPrev) < 16
    ensures Offset(prev, prevPrev) == Offset(prev', prevPrev') <==> prev == prev' && prevPrev == prevPrev'
  {
    if Offset(prev, prevPrev) == Offset(prev', prevPrev') {
      DivModUnique(Offset(prev, prevPrev), 4, prev', prevPrev');
    }
  }
}
