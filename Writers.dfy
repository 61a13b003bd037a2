// Writer: the writeAs* binarization rules of writer.cpp, emitting bins into
// an abstract binary arithmetic encoder. The encoder's state is the bins it
// has been handed, each with the context it is coded in; the arithmetic
// coding of those bins into bytes is not part of this model.
module Writers {
  import opened Bytes
  import opened BitSeqs
  import opened Constants
  import opened Binarizations
  import opened ContextSelector
  import opened Symbols

  /** Bins x written, then bins y: x + y written. */
  lemma {:induction false} AppendBoth(before: seq<Bin>, mid: seq<Bin>, after: seq<Bin>, x: seq<Bin>, y: seq<Bin>)
    requires mid == before + x && after == mid + y
    ensures after == before + (x + y)
  {
  }

  class Writer {
    /** The bins handed to the arithmetic encoder so far, in order. */
    var bins: seq<Bin>
    /** The layout of the context table the writer was built with. */
    const layout: Layout

    constructor (layout: Layout)
      ensures this.layout == layout
      ensures bins == []
    {
      this.layout := layout;
      bins := [];
    }

    /** encodeBin and encodeBinEP: one bin in one context. */
    method EncodeBin(value: bool, ctx: Ctx)
      modifies this
      ensures bins == old(bins) + [Bin(value, ctx)]
    {
      bins := bins + [Bin(value, ctx)];
    }

    /** encodeBinsEP: the low n bits of v as bypass bins, most significant
        first. */
    method EncodeBinsEP(v: nat, n: nat)
      modifies this
      ensures bins == old(bins) + Coded(BitsOf(v, n), EP)
    {
      bins := bins + Coded(BitsOf(v, n), EP);
    }

    // -------------------------------------------------------------------------
    // BI

    /** writeAsBIbypass: the value, cast to 32 bits, in cLength bypass bins. */
    method WriteAsBIBypass(input: nat, cLength: nat)
      requires Encodable(BI, input, cLength)
      modifies this
      ensures bins == old(bins) + BIBins(input, cLength, EP)
    {
      Pow2Monotone(cLength, 32);
      Pow2Of32();
      ModSmall(input, TWO_32);
      EncodeBinsEP(input % TWO_32, cLength);
    }

    /** writeAsBIcabac: bin i is bit cLength - 1 - i, coded in context
        cm + i. */
    method WriteAsBICabac(input: nat, cLength: nat, offset: nat)
      requires Encodable(BI, input, cLength)
      requires ModeValid(layout, Adaptive(offset))
      modifies this
      ensures bins == old(bins) + BIBins(input, cLength, BiRun(layout, Adaptive(offset)))
    {
      var cm := ContextForBi(layout, offset, 0);
      ghost var target := BIBins(input, cLength, CM(cm));
      for i := 0 to cLength
        invariant bins == old(bins) + target[..i]
      {
        var bin := Shr(input, cLength - i - 1) % 2 == 1;
        BitsOfIndex(input, cLength, i);
        EncodeBin(bin, Model(cm + i));
        assert target[..i + 1] == target[..i] + [Bin(bin, Model(cm + i))];
      }
      assert target[..cLength] == target;
    }

    // -------------------------------------------------------------------------
    // TU

    /** The loop both TU writers run: input ones in consecutive contexts of
        the run, then a zero unless input is cMax. */
    method WriteUnary(input: nat, cMax: nat, run: Run)
      requires input <= cMax
      modifies this
      ensures bins == old(bins) + TUBins(input, cMax, run)
    {
      for i := 0 to input
        invariant bins == old(bins) + Coded(Copies(true, i), run)
      {
        EncodeBin(true, CtxAt(run, i));
        CodedSnoc(Copies(true, i), true, run);
        assert Copies(true, i) + [true] == Copies(true, i + 1);
      }
      if input != cMax {
        EncodeBin(false, CtxAt(run, input));
        CodedSnoc(Copies(true, input), false, run);
      } else {
        assert Copies(true, input) + [] == Copies(true, input);
      }
    }

    method WriteAsTUBypass(input: nat, cMax: nat)
      requires Encodable(TU, input, cMax)
      modifies this
      ensures bins == old(bins) + TUBins(input, cMax, EP)
    {
      WriteUnary(input, cMax, EP);
    }

    method WriteAsTUCabac(input: nat, cMax: nat, offset: nat)
      requires Encodable(TU, input, cMax)
      requires ModeValid(layout, Adaptive(offset))
      modifies this
      ensures bins == old(bins) + TUBins(input, cMax, TuRun(layout, Adaptive(offset)))
    {
      WriteUnary(input, cMax, TuRun(layout, Adaptive(offset)));
    }

    // -------------------------------------------------------------------------
    // EG

    /** The body of writeAsEGbypass: the 2L - 1 low bits of input + 1, L its
        bit length, in one bypass call. input + 1 must fit the unsigned
        cast. */
    method EncodeEGBypass(input: nat)
      requires input + 1 < TWO_32
      modifies this
      ensures bins == old(bins) + EGBins(input, EP)
    {
      var value := input + 1;
      var length := 2 * (BitLength(value) - 1) + 1;
      EGBinsBypass(input);
      EncodeBinsEP(value, length);
    }

    method WriteAsEGBypass(input: nat)
      requires Encodable(EG, input, 0)
      modifies this
      ensures bins == old(bins) + EGBins(input, EP)
    {
      EncodeEGBypass(input);
    }

    /** The prefix loop of writeAsEGcabac: n zeros in consecutive contexts
        of the run. */
    method EncodeZeros(n: nat, run: Run)
      modifies this
      ensures bins == old(bins) + Coded(Copies(false, n), run)
    {
      for i := 0 to n
        invariant bins == old(bins) + Coded(Copies(false, i), run)
      {
        EncodeBin(false, CtxAt(run, i));
        CodedSnoc(Copies(false, i), false, run);
        assert Copies(false, i) + [false] == Copies(false, i + 1);
      }
    }

    /** The body of writeAsEGcabac: L - 1 zeros and a one in consecutive
        contexts of the run, then the L - 1 low bits of input + 1 bypass. */
    method EncodeEGCabac(input: nat, run: Run)
      requires input + 1 < TWO_32
      modifies this
      ensures bins == old(bins) + EGBins(input, run)
    {
      var value := input + 1;
      var length := 2 * (BitLength(value) - 1) + 1;
      var suffixSizeMinus1 := length / 2;
      EGBinsSplit(input, suffixSizeMinus1, run);
      EncodeZeros(suffixSizeMinus1, run);
      var i := suffixSizeMinus1;
      EncodeBin(true, CtxAt(run, i));
      length := length - (i + 1);
      if length != 0 {
        EncodeBinsEP(value - Pow2(length), length);
      }
    }

    method WriteAsEGCabac(input: nat, offset: nat)
      requires Encodable(EG, input, 0)
      requires ModeValid(layout, Adaptive(offset))
      modifies this
      ensures bins == old(bins) + EGBins(input, EgRun(layout, Adaptive(offset)))
    {
      EncodeEGCabac(input, EgRun(layout, Adaptive(offset)));
    }

    // -------------------------------------------------------------------------
    // SEG, TEG, STEG

    /** writeAsSEGbypass: EG of the 32-bit SEG index. */
    method WriteAsSEGBypass(input: int)
      requires Encodable(SEG, input, 0)
      modifies this
      ensures bins == old(bins) + SEGBins(input, EP)
    {
      SegMapExact(input);
      EncodeEGBypass(SegMap(input));
    }

    method WriteAsSEGCabac(input: int, offset: nat)
      requires Encodable(SEG, input, 0)
      requires ModeValid(layout, Adaptive(offset))
      modifies this
      ensures bins == old(bins) + SEGBins(input, EgRun(layout, Adaptive(offset)))
    {
      SegMapExact(input);
      EncodeEGCabac(SegMap(input), EgRun(layout, Adaptive(offset)));
    }

    method WriteAsTEGBypass(input: nat, param: nat)
      requires Encodable(TEG, input, param)
      modifies this
      ensures bins == old(bins) + TEGBins(input, param, EP, EP)
    {
      if input < param {
        WriteAsTUBypass(input, param);
      } else {
        WriteAsTUBypass(param, param);
        ghost var mid := bins;
        WriteAsEGBypass(input - param);
        AppendBoth(old(bins), mid, bins, TUBins(param, param, EP), EGBins(input - param, EP));
      }
    }

    method WriteAsTEGCabac(input: nat, param: nat, offset: nat)
      requires Encodable(TEG, input, param)
      requires ModeValid(layout, Adaptive(offset))
      modifies this
      ensures bins == old(bins) + TEGBins(input, param, TuRun(layout, Adaptive(offset)),
                                          EgRun(layout, Adaptive(offset)))
    {
      if input < param {
        WriteAsTUCabac(input, param, offset);
      } else {
        WriteAsTUCabac(param, param, offset);
        ghost var mid := bins;
        WriteAsEGCabac(input - param, offset);
        AppendBoth(old(bins), mid, bins, TUBins(param, param, TuRun(layout, Adaptive(offset))),
                   EGBins(input - param, EgRun(layout, Adaptive(offset))));
      }
    }

    /** writeAsSTEGbypass: TEG of the magnitude, then a one-bin BI sign. */
    method WriteAsSTEGBypass(input: int, param: nat)
      requires Encodable(STEG, input, param)
      modifies this
      ensures bins == old(bins) + STEGBins(input, param, EP, EP, EP)
    {
      if input < 0 {
        WriteAsTEGBypass(-1 * input, param);
        ghost var mid := bins;
        WriteAsBIBypass(1, 1);
        AppendBoth(old(bins), mid, bins, TEGBins(-input, param, EP, EP), BIBins(1, 1, EP));
      } else if input > 0 {
        WriteAsTEGBypass(input, param);
        ghost var mid := bins;
        WriteAsBIBypass(0, 1);
        AppendBoth(old(bins), mid, bins, TEGBins(input, param, EP, EP), BIBins(0, 1, EP));
      } else {
        WriteAsTEGBypass(0, param);
      }
    }

    method WriteAsSTEGCabac(input: int, param: nat, offset: nat)
      requires Encodable(STEG, input, param)
      requires ModeValid(layout, Adaptive(offset))
      modifies this
      ensures bins == old(bins) + STEGBins(input, param, TuRun(layout, Adaptive(offset)),
                                           EgRun(layout, Adaptive(offset)),
                                           BiRun(layout, Adaptive(offset)))
    {
      ghost var tu, eg, bi := TuRun(layout, Adaptive(offset)), EgRun(layout, Adaptive(offset)),
                              BiRun(layout, Adaptive(offset));
      if input < 0 {
        WriteAsTEGCabac(-1 * input, param, offset);
        ghost var mid := bins;
        WriteAsBICabac(1, 1, offset);
        AppendBoth(old(bins), mid, bins, TEGBins(-input, param, tu, eg), BIBins(1, 1, bi));
      } else if input > 0 {
        WriteAsTEGCabac(input, param, offset);
        ghost var mid := bins;
        WriteAsBICabac(0, 1, offset);
        AppendBoth(old(bins), mid, bins, TEGBins(input, param, tu, eg), BIBins(0, 1, bi));
      } else {
        WriteAsTEGCabac(0, param, offset);
      }
    }

    // -------------------------------------------------------------------------
    // Dispatch

    /** One symbol through the writeAs* method of its binarization and mode:
        the switch of writeBypassValue and writeCabacAdaptiveValue, and the
        method pointer encoding.cpp selects. */
    method WriteSymbol(symbol: int, b: Binarization, param: nat, mode: Mode)
      requires Encodable(b, symbol, param)
      requires ModeValid(layout, mode)
      modifies this
      ensures bins == old(bins) + SymbolBins(layout, b, symbol, param, mode)
    {
      match mode
      case Bypass =>
        match b {
          case BI => WriteAsBIBypass(symbol, param);
          case TU => WriteAsTUBypass(symbol, param);
          case EG => WriteAsEGBypass(symbol);
          case SEG => WriteAsSEGBypass(symbol);
          case TEG => WriteAsTEGBypass(symbol, param);
          case STEG => WriteAsSTEGBypass(symbol, param);
        }
      case Adaptive(offset) =>
        match b {
          case BI => WriteAsBICabac(symbol, param, offset);
          case TU => WriteAsTUCabac(symbol, param, offset);
          case EG => WriteAsEGCabac(symbol, offset);
          case SEG => WriteAsSEGCabac(symbol, offset);
          case TEG => WriteAsTEGCabac(symbol, param, offset);
          case STEG => WriteAsSTEGCabac(symbol, param, offset);
        }
    }

    /** writeBypassValue: the first parameter, which the binarization must
        have when it reads one. */
    method WriteBypassValue(symbol: int, b: Binarization, params: seq<nat>)
      requires |params| >= ParamCount(b)
      requires Encodable(b, symbol, Parameter(params))
      modifies this
      ensures bins == old(bins) + SymbolBins(layout, b, symbol, Parameter(params), Bypass)
    {
      WriteSymbol(symbol, b, Parameter(params), Bypass);
    }

    /** writeCabacAdaptiveValue: the context set (prevValue << 2) +
        prevPrevValue. */
    method WriteCabacAdaptiveValue(symbol: int, b: Binarization, params: seq<nat>,
                                   prevValue: nat, prevPrevValue: nat)
      requires |params| >= ParamCount(b)
      requires Encodable(b, symbol, Parameter(params))
      requires ModeValid(layout, Adaptive(Offset(prevValue, prevPrevValue)))
      modifies this
      ensures bins == old(bins) + SymbolBins(layout, b, symbol, Parameter(params),
                                             Adaptive(Offset(prevValue, prevPrevValue)))
    {
      var offset := prevValue * 4 + prevPrevValue;
      WriteSymbol(symbol, b, Parameter(params), Adaptive(offset));
    }

    /** writeNumSymbols and start: the count as a 32-bin bypass BI. */
    method WriteNumSymbols(numSymbols: nat)
      requires numSymbols < TWO_32
      modifies this
      ensures bins == old(bins) + BIBins(numSymbols, 32, EP)
    {
      Pow2Of32();
      WriteAsBIBypass(numSymbols, 32);
    }
  }
}
