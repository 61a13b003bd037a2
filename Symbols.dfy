// One symbol through a binarization and a context mode: the bins the Writer
// emits for it (writeBypassValue, writeCabacAdaptiveValue and the
// function-pointer dispatch of encoding.cpp), the decoder the Reader runs
// (readBypassValue, readAdaptiveCabacValue), and the round trip between
// them for every value the binarization accepts.
module Symbols {
  import opened Bytes
  import opened BitSeqs
  import opened Constants
  import opened Binarizations
  import opened ContextSelector

  /** How the bins of a symbol are coded: bypass, or adaptively in the
      context set `offset`. */
  datatype Mode = Bypass | Adaptive(offset: nat)

  /** A context set getContextForBi/Tu/Eg accept, in a table whose sets
      hold at least one context. */
  predicate ModeValid(layout: Layout, mode: Mode)
  {
    mode.Adaptive? ==> mode.offset < 16 && layout.setLength >= 1
  }

  /** The runs of contexts the BI, TU and EG parts start at: bin 0 of the
      context set for each. */
  function BiRun(layout: Layout, mode: Mode): (r: Run)
    requires ModeValid(layout, mode)
    ensures r.CM? <==> mode.Adaptive?
  {
    if mode.Bypass? then EP else CM(ContextForBi(layout, mode.offset, 0))
  }

  function TuRun(layout: Layout, mode: Mode): (r: Run)
    requires ModeValid(layout, mode)
    ensures r.CM? <==> mode.Adaptive?
  {
    if mode.Bypass? then EP else CM(ContextForTu(layout, mode.offset, 0))
  }

  function EgRun(layout: Layout, mode: Mode): (r: Run)
    requires ModeValid(layout, mode)
    ensures r.CM? <==> mode.Adaptive?
  {
    if mode.Bypass? then EP else CM(ContextForEg(layout, mode.offset, 0))
  }

  /** The values the Writer accepts: sbCheck(x, x, p) of the binarization,
      and for BI a width the 32-bit value casts hold. */
  predicate Encodable(b: Binarization, x: int, p: nat)
  {
    match b
    case BI => p <= 32 && 0 <= x < Pow2(p)
    case TU => 0 <= x <= p
    case EG => 0 <= x <= INT32_MAX
    case SEG => InSegRange(x)
    case TEG => 0 <= x <= INT32_MAX + p
    case STEG => INT32_MIN / 2 - p <= x <= INT32_MAX / 2 + p
  }

  /** Encodable is the range check of binarizationInformation, for every
      unsigned int parameter (BI's up to 32). */
  lemma {:induction false} EncodableIsSbCheck(b: Binarization, x: I64, p: U32)
    requires b == BI ==> p <= 32
    ensures BorderDefined(b, p)
    ensures Encodable(b, x, p) <==> SbCheck(b, x, x, p)
  {
    AcceptedRanges(x, x, p);
  }

  /** How many binarization parameters the binarization reads: one for BI,
      TU, TEG and STEG, none for EG and SEG. */
  function ParamCount(b: Binarization): nat
  {
    if b == EG || b == SEG then 0 else 1
  }

  /** The parameter: the first of the list, or 0 for an empty list. */
  function Parameter(params: seq<nat>): (r: nat)
    ensures |params| > 0 ==> r == params[0]
    ensures |params| == 0 ==> r == 0
  {
    if |params| > 0 then params[0] else 0
  }

  /** The bins of symbol x. */
  function SymbolBins(layout: Layout, b: Binarization, x: int, p: nat, mode: Mode): seq<Bin>
    requires Unsigned(b) ==> x >= 0
    requires ModeValid(layout, mode)
  {
    var bi := BiRun(layout, mode);
    var tu := TuRun(layout, mode);
    var eg := EgRun(layout, mode);
    match b
    case BI => BIBins(x, p, bi)
    case TU => TUBins(x, p, tu)
    case EG => EGBins(x, eg)
    case SEG => SEGBins(x, eg)
    case TEG => TEGBins(x, p, tu, eg)
    case STEG => STEGBins(x, p, tu, eg, bi)
  }

  /** The bin values of symbol x, whatever the contexts. */
  function SymbolCode(b: Binarization, x: int, p: nat): seq<bool>
    requires Unsigned(b) ==> x >= 0
  {
    match b
    case BI => BitsOf(x, p)
    case TU => TUCode(x, p)
    case EG => EGCode(x)
    case SEG => EGCode(SegMap(x))
    case TEG => TEGCode(x, p)
    case STEG => STEGCode(x, p)
  }

  /** The mode changes the contexts of the bins, never their values. */
  lemma {:induction false} ValuesSymbolBins(layout: Layout, b: Binarization, x: int, p: nat, mode: Mode)
    requires Unsigned(b) ==> x >= 0
    requires ModeValid(layout, mode)
    ensures Values(SymbolBins(layout, b, x, p, mode)) == SymbolCode(b, x, p)
  {
    var bi := BiRun(layout, mode);
    var tu := TuRun(layout, mode);
    var eg := EgRun(layout, mode);
    match b
    case BI => ValuesCoded(BitsOf(x, p), bi);
    case TU => ValuesCoded(TUCode(x, p), tu);
    case EG => ValuesEGBins(x, eg);
    case SEG => ValuesEGBins(SegMap(x), eg);
    case TEG => ValuesTEGBins(x, p, tu, eg);
    case STEG => ValuesSTEGBins(x, p, tu, eg, bi);
  }

  /** The decoder for one symbol: its value and the number of bins read. */
  function ReadSymbol(b: Binarization, s: seq<bool>, p: nat): (r: Option<(int, nat)>)
    ensures r.Some? ==> r.value.1 <= |s|
    ensures r.Some? && Unsigned(b) ==> r.value.0 >= 0
  {
    match b
    case BI => (match ReadBI(s, p) case None => None case Some(t) => Some((t.0 as int, t.1)))
    case TU => (match ReadTU(s, p) case None => None case Some(t) => Some((t.0 as int, t.1)))
    case EG => (match ReadEG(s) case None => None case Some(t) => Some((t.0 as int, t.1)))
    case SEG => ReadSEG(s)
    case TEG => (match ReadTEG(s, p) case None => None case Some(t) => Some((t.0 as int, t.1)))
    case STEG => ReadSTEG(s, p)
  }

  /** Every accepted value reads back from its code, whatever follows it. */
  lemma {:induction false} SymbolRoundTrip(b: Binarization, x: int, p: nat, rest: seq<bool>)
    requires Encodable(b, x, p)
    ensures ReadSymbol(b, SymbolCode(b, x, p) + rest, p) == Some((x, |SymbolCode(b, x, p)|))
  {
    match b
    case BI => ReadBIRoundTrip(x, p, rest);
    case TU => ReadTURoundTrip(x, p, rest);
    case EG => ReadEGRoundTrip(x, rest);
    case SEG =>
      ValuesEGBins(SegMap(x), EP);
      SEGRoundTrip(x, EP, rest);
    case TEG => TEGRoundTrip(x, p, rest);
    case STEG => STEGRoundTrip(x, p, rest);
  }

  /** What the decoder consumes is the code of what it returns: no two
      accepted values share a code, and no code is a prefix of another. */
  lemma {:induction false} ReadSymbolExact(b: Binarization, s: seq<bool>, p: nat)
    requires ReadSymbol(b, s, p).Some?
    requires b == SEG ==> InSegRange(ReadSymbol(b, s, p).value.0)
    ensures s[..ReadSymbol(b, s, p).value.1] == SymbolCode(b, ReadSymbol(b, s, p).value.0, p)
  {
    match b
    case BI =>
      var n := p;
      BitsOfValue(s[..n]);
    case TU => ReadTUExact(s, p);
    case EG => ReadEGExact(s);
    case SEG =>
      ReadSEGExact(s, EP);
      ValuesEGBins(SegMap(ReadSymbol(b, s, p).value.0), EP);
    case TEG => ReadTEGExact(s, p);
    case STEG => ReadSTEGExact(s, p);
  }
}
