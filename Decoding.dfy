// decode: the symbol count, then every symbol through readBypassValue or
// readAdaptiveCabacValue, in the context set the context selection and
// the symbols already decoded give it.
module Decoding {
  import opened Bytes
  import opened BitSeqs
  import opened Constants
  import opened Binarizations
  import opened ContextSelector
  import opened Symbols
  import opened Readers
  import opened Streams

  /** The vector decode writes the symbols into. */
  class SymbolBuffer {
    var symbols: seq<int>

    constructor (symbols: seq<int>)
      ensures this.symbols == symbols
    {
      this.symbols := symbols;
    }
  }

  /** std::vector::resize: the first n elements kept, the new ones zero. */
  function Resize(s: seq<int>, n: nat): (r: seq<int>)
    ensures |r| == n
    ensures forall i :: 0 <= i < n ==> r[i] == (if i < |s| then s[i] else 0)
  {
    if n <= |s| then s[..n] else s + seq(n - |s|, _ => 0)
  }

  /** Writes (a + b) + c as a + (b + c). */
  lemma {:induction false} RegroupContexts(a: seq<Ctx>, b: seq<Ctx>, c: seq<Ctx>)
    ensures (a + b) + c == a + (b + c)
  {
  }

  /** One pass of the loop of decode for a known context selection: the
      symbol e ReadSymbol reads, in the mode of the history, asking for the
      contexts c of its bins; and the history after it. */
  method DecodeSymbol(reader: Reader, b: Binarization, params: seq<nat>, contextSelectionId: nat,
                      previousSymbol: nat, previousPreviousSymbol: nat, ghost e: (int, nat), ghost c: seq<Ctx>)
    returns (symbol: int, prev: nat, prevPrev: nat)
    requires reader.Valid() && reader.layout.setLength >= 1
    requires |params| >= ParamCount(b) && (b == BI ==> Parameter(params) <= 32)
    requires KnownSelection(contextSelectionId)
    requires HistoryValid(History(previousSymbol, previousPreviousSymbol))
    requires ReadSymbol(b, reader.values[reader.pos..], Parameter(params)) == Some(e)
    requires (b == SEG ==> InSegRange(e.0)) ==>
      c == Contexts(SymbolBins(reader.layout, b, e.0, Parameter(params),
                               ModeOf(contextSelectionId, History(previousSymbol, previousPreviousSymbol))))
    modifies reader
    ensures reader.Valid()
    ensures symbol == e.0 && reader.pos == old(reader.pos) + e.1
    ensures History(prev, prevPrev)
            == Next(contextSelectionId, History(previousSymbol, previousPreviousSymbol), symbol)
    ensures (b == SEG ==> InSegRange(symbol)) ==> reader.requested == old(reader.requested) + c
  {
    prev, prevPrev := previousSymbol, previousPreviousSymbol;
    if contextSelectionId == 0 {
      symbol := reader.ReadBypassValue(b, params, e, c);
    } else if contextSelectionId == 1 {
      OffsetBound(0, 0, 0, 0);
      symbol := reader.ReadAdaptiveCabacValue(b, params, 0, 0, e, c);
    } else if contextSelectionId == 2 {
      OffsetBound(previousSymbol, 0, 0, 0);
      symbol := reader.ReadAdaptiveCabacValue(b, params, previousSymbol, 0, e, c);
      var magnitude := if symbol < 0 then -symbol else symbol;
      if magnitude > 3 {
        prev := 3;
      } else {
        prev := magnitude;
      }
    } else {
      OffsetBound(previousSymbol, previousPreviousSymbol, 0, 0);
      symbol := reader.ReadAdaptiveCabacValue(b, params, previousSymbol, previousPreviousSymbol, e, c);
      prevPrev := previousSymbol;
      var magnitude := if symbol < 0 then -symbol else symbol;
      if magnitude > 3 {
        prev := 3;
      } else {
        prev := magnitude;
      }
    }
  }

  /** What a pass of the loop of decode reads: the next symbol of the
      stream, and the stream of the others after it. */
  lemma {:induction false} ReadStep(b: Binarization, values: seq<bool>, p: nat, n: nat, i: nat,
                                    target: seq<int>, start: nat, pos: nat, symbol: int)
    requires i < n && |target| == n && start <= pos <= |values|
    requires ReadSymbols(b, values[start..], p, n - i).Some?
    requires ReadSymbols(b, values[start..], p, n - i).value.0 == target[i..]
    requires ReadSymbol(b, values[start..], p) == Some((symbol, pos - start))
    ensures symbol == target[i]
    ensures ReadSymbols(b, values[pos..], p, n - (i + 1)).Some?
    ensures ReadSymbols(b, values[pos..], p, n - (i + 1)).value.0 == target[i + 1..]
  {
    var s := values[start..];
    var k := n - i;
    var rest := ReadSymbols(b, s, p, k).value;
    var xs := target[i..];
    assert ReadSymbols(b, s, p, k) == Some((xs, rest.1));
    ReadSymbolsUncons(b, s, p, k, xs, rest.1);
    assert s[pos - start..] == values[pos..];
    assert xs[1..] == target[i + 1..];
  }

  /** What a pass of the loop of decode asks for: the contexts of the next
      symbol, and then those of the others from the history after it. */
  lemma {:induction false} ContextStep(layout: Layout, b: Binarization, p: nat, contextSelectionId: nat,
                                       target: seq<int>, i: nat, h: History,
                                       before: seq<Ctx>, after: seq<Ctx>, goal: seq<Ctx>)
    requires layout.setLength >= 1 && KnownSelection(contextSelectionId) && HistoryValid(h)
    requires Representable(b, target) && i < |target|
    requires Recodable(b, target) ==>
               (Representable(b, target[i..]) &&
                before + Contexts(StreamBins(layout, b, p, contextSelectionId, target[i..], h)) == goal)
    requires Recodable(b, target) ==>
               ((Unsigned(b) ==> target[i] >= 0) &&
                after == before + Contexts(SymbolBins(layout, b, target[i], p, ModeOf(contextSelectionId, h))))
    ensures Recodable(b, target) ==>
              (Representable(b, target[i + 1..]) &&
               after + Contexts(StreamBins(layout, b, p, contextSelectionId, target[i + 1..],
                                           Next(contextSelectionId, h, target[i]))) == goal)
  {
    StreamBinsAt(layout, b, p, contextSelectionId, target, i, h);
    if Recodable(b, target) {
      var head := SymbolBins(layout, b, target[i], p, ModeOf(contextSelectionId, h));
      var tail := StreamBins(layout, b, p, contextSelectionId, target[i + 1..],
                             Next(contextSelectionId, h, target[i]));
      ContextsAppend(head, tail);
      RegroupContexts(before, Contexts(head), Contexts(tail));
    }
  }

  /** What the loop of decode has read after i passes: the rest of the
      bins hold the remaining symbols of target, and the first i are in
      the buffer. */
  ghost predicate ReadProgress(b: Binarization, p: nat, values: seq<bool>, target: seq<int>, i: nat,
                               pos: nat, symbols: seq<int>)
  {
    i <= |target| && |symbols| == |target| && pos <= |values| &&
    ReadSymbols(b, values[pos..], p, |target| - i).Some? &&
    ReadSymbols(b, values[pos..], p, |target| - i).value.0 == target[i..] &&
    (forall k :: 0 <= k < i ==> symbols[k] == target[k])
  }

  /** What the loop of decode has asked for after i passes: the contexts
      asked for so far followed by those of the remaining symbols make up
      goal. */
  ghost predicate ContextProgress(layout: Layout, b: Binarization, p: nat, contextSelectionId: nat,
                                  target: seq<int>, goal: seq<Ctx>, i: nat, h: History, requested: seq<Ctx>)
    requires layout.setLength >= 1 && KnownSelection(contextSelectionId)
  {
    i <= |target| && HistoryValid(h) && Representable(b, target) &&
    (Recodable(b, target) ==>
      requested + Contexts(StreamBins(layout, b, p, contextSelectionId, target[i..], h)) == goal)
  }

  /** The state of the loop of decode after i passes. */
  ghost predicate DecodeProgress(layout: Layout, b: Binarization, p: nat, contextSelectionId: nat,
                                 values: seq<bool>, target: seq<int>, goal: seq<Ctx>, i: nat, h: History,
                                 pos: nat, requested: seq<Ctx>, symbols: seq<int>)
    requires layout.setLength >= 1 && KnownSelection(contextSelectionId)
  {
    ReadProgress(b, p, values, target, i, pos, symbols) &&
    ContextProgress(layout, b, p, contextSelectionId, target, goal, i, h, requested)
  }

  /** A pass of the loop reads symbol e, the next one of target. */
  lemma {:induction false} ReadProgressStep(b: Binarization, p: nat, values: seq<bool>, target: seq<int>, i: nat,
                                            start: nat, symbols: seq<int>, e: (int, nat), pos: nat)
    requires i < |target| && ReadProgress(b, p, values, target, i, start, symbols)
    requires ReadSymbol(b, values[start..], p) == Some(e) && pos == start + e.1
    ensures e.0 == target[i]
    ensures ReadProgress(b, p, values, target, i + 1, pos, symbols[i := e.0])
  {
    ReadStep(b, values, p, |target|, i, target, start, pos, e.0);
    AgreeStep(symbols, target, i, e.0);
  }

  /** Storing the next symbol of target extends the agreeing prefix. */
  lemma AgreeStep(symbols: seq<int>, target: seq<int>, i: nat, x: int)
    requires i < |target| == |symbols| && x == target[i]
    requires forall k :: 0 <= k < i ==> symbols[k] == target[k]
    ensures forall k :: 0 <= k < i + 1 ==> symbols[i := x][k] == target[k]
  {
  }

  /** A pass of the loop asks for the contexts c of the next symbol of
      target, in the mode of the history. */
  lemma {:induction false} ContextProgressStep(layout: Layout, b: Binarization, p: nat, contextSelectionId: nat,
                                               target: seq<int>, goal: seq<Ctx>, i: nat, h: History,
                                               before: seq<Ctx>, c: seq<Ctx>, after: seq<Ctx>)
    requires layout.setLength >= 1 && KnownSelection(contextSelectionId) && i < |target|
    requires ContextProgress(layout, b, p, contextSelectionId, target, goal, i, h, before)
    requires Unsigned(b) ==> target[i] >= 0
    requires (b == SEG ==> InSegRange(target[i])) ==>
               c == Contexts(SymbolBins(layout, b, target[i], p, ModeOf(contextSelectionId, h)))
    requires (b == SEG ==> InSegRange(target[i])) ==> after == before + c
    ensures ContextProgress(layout, b, p, contextSelectionId, target, goal, i + 1,
                            Next(contextSelectionId, h, target[i]), after)
  {
    ContextStep(layout, b, p, contextSelectionId, target, i, h, before, after, goal);
  }

  /** One pass of the loop of decode, from the state after i passes to the
      state after i + 1. */
  method DecodeNext(reader: Reader, out: SymbolBuffer, b: Binarization, params: seq<nat>,
                    contextSelectionId: nat, previousSymbol: nat, previousPreviousSymbol: nat,
                    ghost target: seq<int>, ghost goal: seq<Ctx>, i: nat)
    returns (prev: nat, prevPrev: nat)
    requires reader.Valid() && reader.layout.setLength >= 1
    requires |params| >= ParamCount(b) && (b == BI ==> Parameter(params) <= 32)
    requires KnownSelection(contextSelectionId) && i < |target|
    requires DecodeProgress(reader.layout, b, Parameter(params), contextSelectionId, reader.values, target, goal,
                            i, History(previousSymbol, previousPreviousSymbol),
                            reader.pos, reader.requested, out.symbols)
    modifies reader, out
    ensures reader.Valid()
    ensures DecodeProgress(reader.layout, b, Parameter(params), contextSelectionId, reader.values, target, goal,
                           i + 1, History(prev, prevPrev), reader.pos, reader.requested, out.symbols)
  {
    ghost var p := Parameter(params);
    ghost var layout := reader.layout;
    ghost var values := reader.values;
    ghost var h := History(previousSymbol, previousPreviousSymbol);
    ghost var start := reader.pos;
    ghost var before := reader.requested;
    assert ReadSymbol(b, values[start..], p).Some? by {
      ReadStart(b, values[start..], p, |target| - i);
    }
    ghost var e := ReadSymbol(b, values[start..], p).value;
    ghost var c := if b == SEG ==> InSegRange(e.0)
                   then Contexts(SymbolBins(layout, b, e.0, p, ModeOf(contextSelectionId, h)))
                   else [];
    var symbol;
    symbol, prev, prevPrev :=
      DecodeSymbol(reader, b, params, contextSelectionId, previousSymbol, previousPreviousSymbol, e, c);
    ReadProgressStep(b, p, values, target, i, start, out.symbols, e, reader.pos);
    ContextProgressStep(layout, b, p, contextSelectionId, target, goal, i, h, before, c, reader.requested);
    out.symbols := out.symbols[i := symbol];
  }

  /** The loop of decode for a known context selection: n symbols read
      into the buffer, each in the mode of the history before it. */
  method DecodeStream(reader: Reader, out: SymbolBuffer, b: Binarization, params: seq<nat>,
                      contextSelectionId: nat, n: nat)
    requires reader.Valid() && reader.layout.setLength >= 1
    requires |params| >= ParamCount(b) && (b == BI ==> Parameter(params) <= 32)
    requires KnownSelection(contextSelectionId) && |out.symbols| == n
    requires ReadSymbols(b, reader.values[reader.pos..], Parameter(params), n).Some?
    modifies reader, out
    ensures reader.Valid()
    ensures out.symbols == ReadSymbols(b, reader.values[old(reader.pos)..], Parameter(params), n).value.0
    ensures Recodable(b, out.symbols) ==>
      reader.requested == old(reader.requested)
        + Contexts(StreamBins(reader.layout, b, Parameter(params), contextSelectionId, out.symbols, Start))
  {
    ghost var p := Parameter(params);
    ghost var layout := reader.layout;
    ghost var values := reader.values;
    ghost var target := ReadSymbols(b, values[reader.pos..], p, n).value.0;
    ghost var goal := reader.requested + Contexts(StreamBins(layout, b, p, contextSelectionId, target, Start));
    assert target[0..] == target;
    var previousSymbol: nat := 0;
    var previousPreviousSymbol: nat := 0;
    var i := 0;
    while i < n
      invariant reader.Valid() && i <= n
      invariant DecodeProgress(layout, b, p, contextSelectionId, values, target, goal,
                               i, History(previousSymbol, previousPreviousSymbol),
                               reader.pos, reader.requested, out.symbols)
    {
      previousSymbol, previousPreviousSymbol :=
        DecodeNext(reader, out, b, params, contextSelectionId, previousSymbol, previousPreviousSymbol,
                   target, goal, i);
      i := i + 1;
    }
    DecodeDone(layout, b, p, contextSelectionId, values, target, goal, i,
               History(previousSymbol, previousPreviousSymbol), reader.pos, reader.requested, out.symbols);
  }

  /** After the last pass: the buffer holds target and the contexts asked
      for are goal. */
  lemma {:induction false} DecodeDone(layout: Layout, b: Binarization, p: nat, contextSelectionId: nat,
                                      values: seq<bool>, target: seq<int>, goal: seq<Ctx>, i: nat, h: History,
                                      pos: nat, requested: seq<Ctx>, symbols: seq<int>)
    requires layout.setLength >= 1 && KnownSelection(contextSelectionId) && i == |target|
    requires DecodeProgress(layout, b, p, contextSelectionId, values, target, goal, i, h, pos, requested, symbols)
    ensures symbols == target
    ensures Recodable(b, target) ==> requested == goal
  {
    assert target[i..] == [];
  }

  /** A stream of at least one symbol starts with a symbol. */
  lemma {:induction false} ReadStart(b: Binarization, s: seq<bool>, p: nat, n: nat)
    requires n > 0 && ReadSymbols(b, s, p, n).Some?
    ensures ReadSymbol(b, s, p).Some?
  {
  }

  /** decode: a missing output vector fails; otherwise the count is read,
      the vector resized to it, and the symbols read into it. An unknown
      context selection fails on the first pass of the loop, so only when
      there is a symbol to read. The decoded symbols are those of
      DecodeSpec, and the contexts the reader asks for are the ones encode
      codes those symbols in, so an arithmetic decoder that follows the
      encoder's context models returns the encoder's bins. */
  method Decode(values: seq<bool>, layout: Layout, b: Binarization, params: seq<nat>,
                contextSelectionId: nat, out: SymbolBuffer?)
    returns (status: ReturnCode, ghost requested: seq<Ctx>)
    requires layout.setLength >= 1
    requires |params| >= ParamCount(b) && (b == BI ==> Parameter(params) <= 32)
    requires DecodeSpec(values, b, Parameter(params), contextSelectionId).Some?
    modifies out
    ensures out == null ==> status == Failure
    ensures out != null ==> status == DecodeSpec(values, b, Parameter(params), contextSelectionId).value.0
    ensures out != null && status == Success ==>
      out.symbols == DecodeSpec(values, b, Parameter(params), contextSelectionId).value.1
    ensures out != null && status == Failure ==> out.symbols == Resize(old(out.symbols), Count(values))
    ensures out != null && status == Success && KnownSelection(contextSelectionId) &&
            Recodable(b, out.symbols) ==>
      Representable(b, out.symbols) && |out.symbols| < TWO_32 &&
      requested == Contexts(EncodedBins(layout, b, params, contextSelectionId, out.symbols))
  {
    if out == null {
      return Failure, [];
    }
    var p := Parameter(params);
    var reader := new Reader(values, layout);
    var n := reader.ReadNumSymbols();
    assert values[0..] == values;
    ghost var count := reader.requested;
    out.symbols := Resize(out.symbols, n);
    if n == 0 {
      SpecOfDecoded(values, b, p, contextSelectionId, n, out.symbols);
      if KnownSelection(contextSelectionId) {
        EncodedContexts(layout, b, params, contextSelectionId, out.symbols, count, reader.requested);
      }
      return Success, reader.requested;
    }
    if !KnownSelection(contextSelectionId) {
      SpecOfUnknown(values, b, p, contextSelectionId);
      return Failure, reader.requested;
    }
    DecodeStream(reader, out, b, params, contextSelectionId, n);
    SpecOfDecoded(values, b, p, contextSelectionId, n, out.symbols);
    if Recodable(b, out.symbols) {
      EncodedContexts(layout, b, params, contextSelectionId, out.symbols, count, reader.requested);
    }
    return Success, reader.requested;
  }

  /** DecodeSpec of a stream whose symbols read back. */
  lemma {:induction false} SpecOfDecoded(values: seq<bool>, b: Binarization, p: nat, contextSelectionId: nat,
                                         n: nat, symbols: seq<int>)
    requires |values| >= 32 && ReadBI(values, 32) == Some((n, 32))
    requires KnownSelection(contextSelectionId) || n == 0
    requires n == 0 ==> symbols == []
    requires n > 0 ==> ReadSymbols(b, values[32..], p, n).Some? &&
                       ReadSymbols(b, values[32..], p, n).value.0 == symbols
    ensures Count(values) == n
    ensures DecodeSpec(values, b, p, contextSelectionId) == Some((Success, symbols))
  {
  }

  /** DecodeSpec of a stream with symbols and an unknown context selection. */
  lemma {:induction false} SpecOfUnknown(values: seq<bool>, b: Binarization, p: nat, contextSelectionId: nat)
    requires |values| >= 32 && Count(values) > 0 && !KnownSelection(contextSelectionId)
    ensures DecodeSpec(values, b, p, contextSelectionId) == Some((Failure, []))
  {
  }

  /** The count's contexts followed by the stream's are those of the bins
      encode writes. */
  lemma {:induction false} EncodedContexts(layout: Layout, b: Binarization, params: seq<nat>,
                                           contextSelectionId: nat, symbols: seq<int>,
                                           count: seq<Ctx>, requested: seq<Ctx>)
    requires layout.setLength >= 1 && KnownSelection(contextSelectionId)
    requires Representable(b, symbols) && |symbols| < TWO_32
    requires count == Contexts(BIBins(|symbols|, 32, EP))
    requires requested == count + Contexts(StreamBins(layout, b, Parameter(params), contextSelectionId, symbols, Start))
    ensures requested == Contexts(EncodedBins(layout, b, params, contextSelectionId, symbols))
  {
    ContextsAppend(BIBins(|symbols|, 32, EP),
                   StreamBins(layout, b, Parameter(params), contextSelectionId, symbols, Start));
  }
}
