// A whole symbol stream: the bins encode writes for it (the count, then
// every symbol in the mode its context selection gives it), the stream
// decode reads back, and the round trip between them.
module Streams {
  import opened Bytes
  import opened BitSeqs
  import opened Constants
  import opened Binarizations
  import opened ContextSelector
  import opened Symbols

  /** GABAC_SUCCESS and GABAC_FAILURE. */
  datatype ReturnCode = Success | Failure

  /** previousSymbol and previousPreviousSymbol of the order-1 and order-2
      loops. */
  datatype History = History(prev: nat, prevPrev: nat)

  const Start: History := History(0, 0)

  predicate HistoryValid(h: History)
  {
    h.prev <= 3 && h.prevPrev <= 3
  }

  /** ContextSelectionId: 0 bypass, 1, 2 and 3 adaptive coding of order 0,
      1 and 2. */
  predicate KnownSelection(contextSelectionId: nat)
  {
    contextSelectionId <= 3
  }

  /** The mode a symbol is coded in: bypass, context set 0 for order 0,
      prev << 2 for order 1 and (prev << 2) + prevPrev for order 2. */
  function ModeOf(contextSelectionId: nat, h: History): (m: Mode)
    requires KnownSelection(contextSelectionId) && HistoryValid(h)
    ensures m.Bypass? <==> contextSelectionId == 0
    ensures m.Adaptive? ==> m.offset < 16
  {
    OffsetBound(h.prev, h.prevPrev, 0, 0);
    OffsetBound(h.prev, 0, 0, 0);
    if contextSelectionId == 0 then Bypass
    else if contextSelectionId == 1 then Adaptive(Offset(0, 0))
    else if contextSelectionId == 2 then Adaptive(Offset(h.prev, 0))
    else Adaptive(Offset(h.prev, h.prevPrev))
  }

  /** The history after a symbol: order 1 keeps the class of the last
      symbol, order 2 also shifts the old one into prevPrev; bypass and
      order 0 keep none. */
  function Next(contextSelectionId: nat, h: History, symbol: int): (r: History)
    ensures HistoryValid(h) ==> HistoryValid(r)
    ensures contextSelectionId == 2 ==> r == History(PrevClass(symbol), h.prevPrev)
    ensures contextSelectionId == 3 ==> r == History(PrevClass(symbol), h.prev)
    ensures contextSelectionId != 2 && contextSelectionId != 3 ==> r == h
  {
    if contextSelectionId == 2 then History(PrevClass(symbol), h.prevPrev)
    else if contextSelectionId == 3 then History(PrevClass(symbol), h.prev)
    else h
  }

  /** Symbols an unsigned binarization can take. */
  predicate Representable(b: Binarization, symbols: seq<int>)
  {
    Unsigned(b) ==> forall i :: 0 <= i < |symbols| ==> symbols[i] >= 0
  }

  /** Symbols every one of which the writer accepts. */
  predicate AllEncodable(b: Binarization, symbols: seq<int>, p: nat)
  {
    forall i :: 0 <= i < |symbols| ==> Encodable(b, symbols[i], p)
  }

  /** Symbols every one of which SEG's mapping sends back to itself. */
  predicate Recodable(b: Binarization, symbols: seq<int>)
  {
    b == SEG ==> forall i :: 0 <= i < |symbols| ==> InSegRange(symbols[i])
  }

  lemma {:induction false} EncodableStream(b: Binarization, symbols: seq<int>, p: nat)
    requires AllEncodable(b, symbols, p)
    ensures Representable(b, symbols) && Recodable(b, symbols)
  {
    if Unsigned(b) {
      forall i | 0 <= i < |symbols|
        ensures symbols[i] >= 0
      {
        assert Encodable(b, symbols[i], p);
      }
    }
  }

  lemma {:induction false} RepresentableSuffix(b: Binarization, symbols: seq<int>, i: nat)
    requires Representable(b, symbols) && i <= |symbols|
    ensures Representable(b, symbols[i..])
  {
    if Unsigned(b) {
      forall j | 0 <= j < |symbols| - i
        ensures symbols[i..][j] >= 0
      {
        assert symbols[i..][j] == symbols[i + j];
      }
    }
  }

  /** The bins of the symbols, each in the mode the history before it
      gives. */
  function StreamBins(layout: Layout, b: Binarization, p: nat, contextSelectionId: nat,
                      symbols: seq<int>, h: History): seq<Bin>
    requires layout.setLength >= 1 && KnownSelection(contextSelectionId) && HistoryValid(h)
    requires Representable(b, symbols)
    decreases |symbols|
  {
    if symbols == [] then []
    else
      assert Representable(b, symbols[1..]) by {
        if Unsigned(b) {
          forall i | 0 <= i < |symbols| - 1
            ensures symbols[1..][i] >= 0
          {
            assert symbols[1..][i] == symbols[i + 1];
          }
        }
      }
      SymbolBins(layout, b, symbols[0], p, ModeOf(contextSelectionId, h))
      + StreamBins(layout, b, p, contextSelectionId, symbols[1..], Next(contextSelectionId, h, symbols[0]))
  }

  /** What encode writes: the count as a 32-bin bypass BI, then the
      symbols from an empty history. */
  function EncodedBins(layout: Layout, b: Binarization, params: seq<nat>, contextSelectionId: nat,
                       symbols: seq<int>): seq<Bin>
    requires layout.setLength >= 1 && KnownSelection(contextSelectionId)
    requires Representable(b, symbols) && |symbols| < TWO_32
  {
    BIBins(|symbols|, 32, EP) + StreamBins(layout, b, Parameter(params), contextSelectionId, symbols, Start)
  }

  /** StreamBins from symbol i on: symbol i in the mode of h, then the rest
      from the history after it. */
  lemma {:induction false} StreamBinsAt(layout: Layout, b: Binarization, p: nat, contextSelectionId: nat,
                                        symbols: seq<int>, i: nat, h: History)
    requires layout.setLength >= 1 && KnownSelection(contextSelectionId) && HistoryValid(h)
    requires Representable(b, symbols) && i < |symbols|
    ensures Unsigned(b) ==> symbols[i] >= 0
    ensures Representable(b, symbols[i..]) && Representable(b, symbols[i + 1..])
    ensures StreamBins(layout, b, p, contextSelectionId, symbols[i..], h)
            == SymbolBins(layout, b, symbols[i], p, ModeOf(contextSelectionId, h))
               + StreamBins(layout, b, p, contextSelectionId, symbols[i + 1..], Next(contextSelectionId, h, symbols[i]))
  {
    RepresentableSuffix(b, symbols, i);
    RepresentableSuffix(b, symbols, i + 1);
    assert symbols[i..][1..] == symbols[i + 1..];
    assert symbols[i..][0] == symbols[i];
  }

  /** One pass of an encode loop: with the bins of symbol i appended, the
      bins of the symbols after it, from the history after it, complete
      the same target. */
  lemma {:induction false} StreamStep(layout: Layout, b: Binarization, p: nat, contextSelectionId: nat,
                                      symbols: seq<int>, i: nat, h: History,
                                      before: seq<Bin>, after: seq<Bin>, target: seq<Bin>)
    requires layout.setLength >= 1 && KnownSelection(contextSelectionId) && HistoryValid(h)
    requires Representable(b, symbols) && i < |symbols|
    requires before + StreamBins(layout, b, p, contextSelectionId, symbols[i..], h) == target
    requires Unsigned(b) ==> symbols[i] >= 0
    requires after == before + SymbolBins(layout, b, symbols[i], p, ModeOf(contextSelectionId, h))
    ensures after + StreamBins(layout, b, p, contextSelectionId, symbols[i + 1..],
                               Next(contextSelectionId, h, symbols[i])) == target
  {
    StreamBinsAt(layout, b, p, contextSelectionId, symbols, i, h);
    var head := SymbolBins(layout, b, symbols[i], p, ModeOf(contextSelectionId, h));
    var tail := StreamBins(layout, b, p, contextSelectionId, symbols[i + 1..], Next(contextSelectionId, h, symbols[i]));
    Regroup(before, head, tail);
  }

  /** Writes (a + b) + c as a + (b + c). */
  lemma {:induction false} Regroup(a: seq<Bin>, b: seq<Bin>, c: seq<Bin>)
    ensures (a + b) + c == a + (b + c)
  {
  }

  /** The bin values of the symbols, whatever the contexts. */
  function StreamCode(b: Binarization, p: nat, symbols: seq<int>): seq<bool>
    requires Representable(b, symbols)
    decreases |symbols|
  {
    if symbols == [] then []
    else
      assert Representable(b, symbols[1..]) by {
        if Unsigned(b) {
          forall i | 0 <= i < |symbols| - 1
            ensures symbols[1..][i] >= 0
          {
            assert symbols[1..][i] == symbols[i + 1];
          }
        }
      }
      SymbolCode(b, symbols[0], p) + StreamCode(b, p, symbols[1..])
  }

  /** The context selection changes the contexts of a stream, never its bin
      values. */
  lemma {:induction false} ValuesStreamBins(layout: Layout, b: Binarization, p: nat, contextSelectionId: nat,
                                            symbols: seq<int>, h: History)
    requires layout.setLength >= 1 && KnownSelection(contextSelectionId) && HistoryValid(h)
    requires Representable(b, symbols)
    ensures Values(StreamBins(layout, b, p, contextSelectionId, symbols, h)) == StreamCode(b, p, symbols)
    decreases |symbols|
  {
    if symbols != [] {
      var mode := ModeOf(contextSelectionId, h);
      var head := SymbolBins(layout, b, symbols[0], p, mode);
      var h' := Next(contextSelectionId, h, symbols[0]);
      assert Representable(b, symbols[1..]) by {
        if Unsigned(b) {
          forall i | 0 <= i < |symbols| - 1
            ensures symbols[1..][i] >= 0
          {
            assert symbols[1..][i] == symbols[i + 1];
          }
        }
      }
      ValuesStreamBins(layout, b, p, contextSelectionId, symbols[1..], h');
      ValuesAppend(head, StreamBins(layout, b, p, contextSelectionId, symbols[1..], h'));
      ValuesSymbolBins(layout, b, symbols[0], p, mode);
    }
  }

  /** The decoder for n symbols: their values and the number of bins read. */
  function ReadSymbols(b: Binarization, s: seq<bool>, p: nat, n: nat): (r: Option<(seq<int>, nat)>)
    ensures r.Some? ==> |r.value.0| == n && r.value.1 <= |s|
    ensures r.Some? ==> Representable(b, r.value.0)
    decreases n
  {
    if n == 0 then Some(([], 0))
    else match ReadSymbol(b, s, p)
      case None => None
      case Some(t) =>
        match ReadSymbols(b, s[t.1..], p, n - 1)
        case None => None
        case Some(u) => Some(([t.0] + u.0, t.1 + u.1))
  }

  /** One step of ReadSymbols: a symbol, then the remaining n - 1. */
  lemma {:induction false} ReadSymbolsStep(b: Binarization, s: seq<bool>, p: nat, n: nat,
                                           x: int, k: nat, xs: seq<int>, m: nat, all: seq<int>, total: nat)
    requires n > 0 && ReadSymbol(b, s, p) == Some((x, k))
    requires k <= |s| && ReadSymbols(b, s[k..], p, n - 1) == Some((xs, m))
    requires all == [x] + xs && total == k + m
    ensures ReadSymbols(b, s, p, n) == Some((all, total))
  {
  }

  /** ReadSymbols read backwards: the first symbol, then the others from
      where it ends. */
  lemma {:induction false} ReadSymbolsUncons(b: Binarization, s: seq<bool>, p: nat, n: nat,
                                             xs: seq<int>, total: nat)
    requires n > 0 && ReadSymbols(b, s, p, n) == Some((xs, total))
    ensures ReadSymbol(b, s, p).Some? && |xs| == n
    ensures ReadSymbol(b, s, p).value.0 == xs[0]
    ensures ReadSymbol(b, s, p).value.1 <= total
    ensures ReadSymbols(b, s[ReadSymbol(b, s, p).value.1..], p, n - 1)
            == Some((xs[1..], total - ReadSymbol(b, s, p).value.1))
  {
    var t := ReadSymbol(b, s, p).value;
    var u := ReadSymbols(b, s[t.1..], p, n - 1).value;
    assert xs == [t.0] + u.0;
    assert xs[1..] == u.0;
  }

  /** Every stream of accepted symbols reads back from its code, whatever
      follows it. */
  lemma {:induction false} StreamRoundTrip(b: Binarization, p: nat, symbols: seq<int>, rest: seq<bool>)
    requires AllEncodable(b, symbols, p)
    ensures Representable(b, symbols)
    ensures ReadSymbols(b, StreamCode(b, p, symbols) + rest, p, |symbols|)
            == Some((symbols, |StreamCode(b, p, symbols)|))
    decreases |symbols|
  {
    EncodableStream(b, symbols, p);
    if symbols != [] {
      EncodableTail(b, symbols, p);
      StreamRoundTrip(b, p, symbols[1..], rest);
      ReadSymbolsCons(b, p, symbols, rest);
    } else {
      assert StreamCode(b, p, symbols) + rest == rest;
    }
  }

  /** The inductive step of StreamRoundTrip: the head symbol, then the
      stream of the others. */
  lemma {:induction false} ReadSymbolsCons(b: Binarization, p: nat, symbols: seq<int>, rest: seq<bool>)
    requires symbols != [] && Encodable(b, symbols[0], p)
    requires Representable(b, symbols) && Representable(b, symbols[1..])
    requires ReadSymbols(b, StreamCode(b, p, symbols[1..]) + rest, p, |symbols| - 1)
             == Some((symbols[1..], |StreamCode(b, p, symbols[1..])|))
    ensures ReadSymbols(b, StreamCode(b, p, symbols) + rest, p, |symbols|)
            == Some((symbols, |StreamCode(b, p, symbols)|))
  {
    var x := symbols[0];
    var tail := symbols[1..];
    var head := SymbolCode(b, x, p);
    var code := StreamCode(b, p, tail);
    var s := StreamCode(b, p, symbols) + rest;
    var k: nat := |head|;
    var m: nat := |code|;
    StreamCodeCons(b, p, symbols);
    SplitAfter(head, code, rest);
    ReadSymbolAt(b, x, p, s);
    assert [x] + tail == symbols;
    ReadSymbolsStep(b, s, p, |symbols|, x, k, tail, m, symbols, |StreamCode(b, p, symbols)|);
  }

  lemma {:induction false} SplitAfter(head: seq<bool>, code: seq<bool>, rest: seq<bool>)
    ensures ((head + code) + rest)[..|head|] == head
    ensures ((head + code) + rest)[|head|..] == code + rest
  {
    assert (head + code) + rest == head + (code + rest);
  }

  /** SymbolRoundTrip on a sequence that starts with the code of x. */
  lemma {:induction false} ReadSymbolAt(b: Binarization, x: int, p: nat, s: seq<bool>)
    requires Encodable(b, x, p)
    requires |SymbolCode(b, x, p)| <= |s| && s[..|SymbolCode(b, x, p)|] == SymbolCode(b, x, p)
    ensures ReadSymbol(b, s, p) == Some((x, |SymbolCode(b, x, p)|))
  {
    var code := SymbolCode(b, x, p);
    SymbolRoundTrip(b, x, p, s[|code|..]);
    assert s == code + s[|code|..];
  }

  lemma {:induction false} EncodableTail(b: Binarization, symbols: seq<int>, p: nat)
    requires AllEncodable(b, symbols, p) && symbols != []
    ensures Encodable(b, symbols[0], p) && AllEncodable(b, symbols[1..], p)
  {
    forall i | 0 <= i < |symbols| - 1
      ensures Encodable(b, symbols[1..][i], p)
    {
      assert symbols[1..][i] == symbols[i + 1];
    }
  }

  lemma {:induction false} StreamCodeCons(b: Binarization, p: nat, symbols: seq<int>)
    requires Representable(b, symbols) && symbols != []
    ensures Unsigned(b) ==> symbols[0] >= 0
    ensures Representable(b, symbols[1..])
    ensures StreamCode(b, p, symbols) == SymbolCode(b, symbols[0], p) + StreamCode(b, p, symbols[1..])
  {
    RepresentableTail(b, symbols);
  }

  lemma {:induction false} RepresentableTail(b: Binarization, symbols: seq<int>)
    requires Representable(b, symbols) && symbols != []
    ensures Representable(b, symbols[1..])
  {
    if Unsigned(b) {
      forall i | 0 <= i < |symbols| - 1
        ensures symbols[1..][i] >= 0
      {
        assert symbols[1..][i] == symbols[i + 1];
      }
    }
  }

  /** The symbol count at the head of a stream. */
  function Count(values: seq<bool>): (n: nat)
    requires |values| >= 32
    ensures n < TWO_32
  {
    Pow2Of32();
    Value(values[..32])
  }

  /** What decode returns: nothing when the count or the symbols cannot be
      read, a failure for an unknown context selection with symbols to
      decode, and the symbols otherwise. */
  function DecodeSpec(values: seq<bool>, b: Binarization, p: nat, contextSelectionId: nat)
    : (r: Option<(ReturnCode, seq<int>)>)
    ensures r.Some? ==> |values| >= 32
    ensures r.Some? && r.value.0 == Success ==> |r.value.1| == Count(values)
    ensures r.Some? && r.value.0 == Failure ==> !KnownSelection(contextSelectionId)
  {
    if |values| < 32 then None
    else if Count(values) > 0 && !KnownSelection(contextSelectionId) then Some((Failure, []))
    else match ReadSymbols(b, values[32..], p, Count(values))
      case None => None
      case Some(t) => Some((Success, t.0))
  }

  /** Decoding what encode writes gives back the symbols encoded, for every
      context selection and every stream the writer accepts. */
  lemma {:induction false} CodecRoundTrip(layout: Layout, b: Binarization, params: seq<nat>, contextSelectionId: nat,
                                          symbols: seq<int>)
    requires layout.setLength >= 1 && KnownSelection(contextSelectionId)
    requires AllEncodable(b, symbols, Parameter(params)) && |symbols| < TWO_32
    ensures Representable(b, symbols)
    ensures DecodeSpec(Values(EncodedBins(layout, b, params, contextSelectionId, symbols)), b,
                       Parameter(params), contextSelectionId) == Some((Success, symbols))
  {
    var p := Parameter(params);
    EncodableStream(b, symbols, p);
    var head := BIBins(|symbols|, 32, EP);
    var tail := StreamBins(layout, b, p, contextSelectionId, symbols, Start);
    var values := Values(EncodedBins(layout, b, params, contextSelectionId, symbols));
    ValuesAppend(head, tail);
    ValuesCoded(BitsOf(|symbols|, 32), EP);
    ValuesStreamBins(layout, b, p, contextSelectionId, symbols, Start);
    assert values == BitsOf(|symbols|, 32) + StreamCode(b, p, symbols);
    Pow2Of32();
    ValueOfBitsOf(|symbols|, 32);
    assert values[..32] == BitsOf(|symbols|, 32);
    assert values[32..] == StreamCode(b, p, symbols) + [];
    StreamRoundTrip(b, p, symbols, []);
  }
}
