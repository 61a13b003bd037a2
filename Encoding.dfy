// encode: the symbol count, then every symbol through the writeAs* method
// of its binarization, bypass or in the context set its context selection
// gives it.
module Encoding {
  import opened Bytes
  import opened Constants
  import opened Binarizations
  import opened ContextSelector
  import opened Symbols
  import opened Writers
  import opened Streams

  /** encode: the bins handed to the arithmetic encoder and the return
      code. An unknown context selection fails after the count has been
      written. The caller passes at least the parameters the binarization
      reads, and symbols the writer accepts. */
  method Encode(layout: Layout, symbols: seq<int>, b: Binarization, params: seq<nat>,
                contextSelectionId: nat)
    returns (status: ReturnCode, bins: seq<Bin>)
    requires layout.setLength >= 1
    requires |params| >= ParamCount(b)
    requires |symbols| < TWO_32
    requires AllEncodable(b, symbols, Parameter(params))
    ensures Representable(b, symbols)
    ensures status == Success <==> KnownSelection(contextSelectionId)
    ensures status == Success ==> bins == EncodedBins(layout, b, params, contextSelectionId, symbols)
    ensures status == Failure ==> bins == BIBins(|symbols|, 32, EP)
  {
    var p := Parameter(params);
    EncodableStream(b, symbols, p);
    var writer := new Writer(layout);
    writer.WriteNumSymbols(|symbols|);
    assert writer.bins == BIBins(|symbols|, 32, EP);
    if contextSelectionId == 0 {
      WriteBypassStream(writer, symbols, b, p);
    } else if contextSelectionId == 1 {
      WriteOrder0Stream(writer, symbols, b, p);
    } else if contextSelectionId == 2 {
      WriteOrder1Stream(writer, symbols, b, p);
    } else if contextSelectionId == 3 {
      WriteOrder2Stream(writer, symbols, b, p);
    } else {
      return Failure, writer.bins;
    }
    assert writer.bins == EncodedBins(layout, b, params, contextSelectionId, symbols);
    return Success, writer.bins;
  }

  /** The bypass loop of encode. */
  method WriteBypassStream(writer: Writer, symbols: seq<int>, b: Binarization, p: nat)
    requires writer.layout.setLength >= 1
    requires AllEncodable(b, symbols, p) && Representable(b, symbols)
    modifies writer
    ensures writer.bins == old(writer.bins) + StreamBins(writer.layout, b, p, 0, symbols, Start)
  {
    ghost var layout := writer.layout;
    ghost var target := writer.bins + StreamBins(layout, b, p, 0, symbols, Start);
    var i := 0;
    while i < |symbols|
      invariant 0 <= i <= |symbols|
      invariant writer.bins + StreamBins(layout, b, p, 0, symbols[i..], Start) == target
    {
      ghost var before := writer.bins;
      writer.WriteSymbol(symbols[i], b, p, Bypass);
      StreamStep(layout, b, p, 0, symbols, i, Start, before, writer.bins, target);
      i := i + 1;
    }
    assert symbols[i..] == [];
  }

  /** The order-0 loop of encode: every symbol in context set 0. */
  method WriteOrder0Stream(writer: Writer, symbols: seq<int>, b: Binarization, p: nat)
    requires writer.layout.setLength >= 1
    requires AllEncodable(b, symbols, p) && Representable(b, symbols)
    modifies writer
    ensures writer.bins == old(writer.bins) + StreamBins(writer.layout, b, p, 1, symbols, Start)
  {
    ghost var layout := writer.layout;
    ghost var target := writer.bins + StreamBins(layout, b, p, 1, symbols, Start);
    var i := 0;
    while i < |symbols|
      invariant 0 <= i <= |symbols|
      invariant writer.bins + StreamBins(layout, b, p, 1, symbols[i..], Start) == target
    {
      ghost var before := writer.bins;
      writer.WriteSymbol(symbols[i], b, p, Adaptive(0));
      StreamStep(layout, b, p, 1, symbols, i, Start, before, writer.bins, target);
      i := i + 1;
    }
    assert symbols[i..] == [];
  }

  /** The order-1 loop of encode: context set previousSymbol << 2, with
      previousSymbol the magnitude of the last symbol capped at 3. */
  method WriteOrder1Stream(writer: Writer, symbols: seq<int>, b: Binarization, p: nat)
    requires writer.layout.setLength >= 1
    requires AllEncodable(b, symbols, p) && Representable(b, symbols)
    modifies writer
    ensures writer.bins == old(writer.bins) + StreamBins(writer.layout, b, p, 2, symbols, Start)
  {
    ghost var layout := writer.layout;
    ghost var target := writer.bins + StreamBins(layout, b, p, 2, symbols, Start);
    var previousSymbol: nat := 0;
    ghost var h := Start;
    var i := 0;
    while i < |symbols|
      invariant 0 <= i <= |symbols|
      invariant h == History(previousSymbol, 0) && HistoryValid(h)
      invariant writer.bins + StreamBins(layout, b, p, 2, symbols[i..], h) == target
    {
      var symbol := symbols[i];
      assert ModeOf(2, h) == Adaptive(previousSymbol * 4);
      ghost var before := writer.bins;
      writer.WriteSymbol(symbol, b, p, Adaptive(previousSymbol * 4));
      StreamStep(layout, b, p, 2, symbols, i, h, before, writer.bins, target);
      h := Next(2, h, symbol);
      if symbol < 0 {
        symbol := -symbol;
      }
      if symbol > 3 {
        previousSymbol := 3;
      } else {
        previousSymbol := symbol;
      }
      i := i + 1;
    }
    assert symbols[i..] == [];
  }

  /** The order-2 loop of encode: context set (previousSymbol << 2) +
      previousPreviousSymbol, the classes of the last two symbols. */
  method WriteOrder2Stream(writer: Writer, symbols: seq<int>, b: Binarization, p: nat)
    requires writer.layout.setLength >= 1
    requires AllEncodable(b, symbols, p) && Representable(b, symbols)
    modifies writer
    ensures writer.bins == old(writer.bins) + StreamBins(writer.layout, b, p, 3, symbols, Start)
  {
    ghost var layout := writer.layout;
    ghost var target := writer.bins + StreamBins(layout, b, p, 3, symbols, Start);
    var previousSymbol: nat := 0;
    var previousPreviousSymbol: nat := 0;
    ghost var h := Start;
    var i := 0;
    while i < |symbols|
      invariant 0 <= i <= |symbols|
      invariant h == History(previousSymbol, previousPreviousSymbol) && HistoryValid(h)
      invariant writer.bins + StreamBins(layout, b, p, 3, symbols[i..], h) == target
    {
      var symbol := symbols[i];
      assert ModeOf(3, h) == Adaptive(previousSymbol * 4 + previousPreviousSymbol);
      ghost var before := writer.bins;
      writer.WriteSymbol(symbol, b, p, Adaptive(previousSymbol * 4 + previousPreviousSymbol));
      StreamStep(layout, b, p, 3, symbols, i, h, before, writer.bins, target);
      h := Next(3, h, symbol);
      previousPreviousSymbol := previousSymbol;
      if symbol < 0 {
        symbol := -symbol;
      }
      if symbol > 3 {
        previousSymbol := 3;
      } else {
        previousSymbol := symbol;
      }
      i := i + 1;
    }
    assert symbols[i..] == [];
  }
}
