// The exhaustive configuration search of gabacify/analysis.cpp, as
// functions: every level of the getOptimumOf* cascade lists the candidates
// it tries, in order, and the running best is a fold over that list. The
// encoder, the transformations and appendToBytestream are oracles.
module AnalysisSpec {
  import opened Bytes
  import opened Constants
  import opened DataBlocks
  import opened Helpers

  datatype ContextSelection = Bypass | AdaptiveOrder0 | AdaptiveOrder1 | AdaptiveOrder2

  /** TransformedSequenceConfiguration. */
  datatype StreamConfig = StreamConfig(
    lutTransformationEnabled: bool,
    lutBits: nat,
    lutOrder: nat,
    diffCodingEnabled: bool,
    binarizationId: Binarization,
    binarizationParameters: seq<U64>,
    contextSelectionId: ContextSelection)

  /** gabacify::Configuration. */
  datatype Configuration = Configuration(
    wordSize: U32,
    sequenceTransformationId: Transformation,
    sequenceTransformationParameter: U32,
    streams: seq<StreamConfig>)

  /** What doLutTransform leaves behind: the encoded table, the transformed
      sequence (lutStreams[0]) and lutBits. */
  datatype LutResult = LutResult(table: seq<Byte>, sequence: seq<U64>, bits: nat)

  /** The functions the search calls whose code is not part of this model. */
  datatype Codec = Codec(
    encode: (seq<I64>, Binarization, U64, ContextSelection) -> seq<Byte>,
    appendToBytestream: (seq<Byte>, seq<Byte>) -> seq<Byte>,
    diffTransform: (bool, seq<U64>) -> seq<I64>,
    lutTransform: (bool, seq<U64>, nat) -> LutResult,
    sequenceTransform: (seq<U64>, Transformation, nat) -> seq<seq<U64>>)

  /** appendToBytestream(stream, &buffer) appends a four-byte size and the
      stream, as the `+ 4` of the comparison assumes. */
  ghost predicate Framed(codec: Codec)
  {
    forall buffer, stream :: |codec.appendToBytestream(buffer, stream)| == |buffer| + 4 + |stream|
  }

  /** doSequenceTransform gives one stream per entry of the transformation's
      word-size table (fixWordSizes(...)[i] is read for each of them). */
  ghost predicate StreamCountsAgree(codec: Codec)
  {
    forall symbols, t, p :: |codec.sequenceTransform(symbols, t, p)| == |WordSizes(t)|
  }

  // ---------------------------------------------------------------------------
  // getCandidateConfig

  const WORD_SIZES: seq<U32> := [1, 4]
  const SEQUENCE_TRANSFORMATIONS: seq<Transformation> := [NoTransform, EqualityCoding, MatchCoding, RleCoding]
  const LUT_PARAMETERS: seq<bool> := [false, true]
  const DIFF_PARAMETERS: seq<bool> := [false]
  const UNSIGNED_BINARIZATIONS: seq<Binarization> := [BI, TU, EG, TEG]
  const SIGNED_BINARIZATIONS: seq<Binarization> := [SEG, STEG]
  const BINARIZATION_PARAMETERS: seq<U64> := [1, 2, 3, 5, 7, 9, 15, 30, 255]
  const CONTEXTS: seq<ContextSelection> := [AdaptiveOrder0, AdaptiveOrder1, AdaptiveOrder2]
  const LUT_ORDERS: seq<nat> := [0, 1]

  /** The transformation parameters tried: {0} without a parameter, the
      match window sizes and the RLE guard. */
  function SequenceParameters(t: Transformation): seq<U32>
    requires t in SEQUENCE_TRANSFORMATIONS
  {
    match t
    case MatchCoding => [32, 256]
    case RleCoding => [255]
    case _ => [0]
  }

  /** A TransformedSequenceConfiguration with every field zero. */
  const BLANK: StreamConfig := StreamConfig(false, 0, 0, false, BI, [], Bypass)

  /** Configuration(): word size 0, no transformation, parameter 0. */
  const DEFAULT_CONFIGURATION: Configuration := Configuration(0, NoTransform, 0, [])

  // ---------------------------------------------------------------------------
  // Binarization parameters

  /** ceil(log2(x)): the least p with x <= 2^p. */
  function CeilLog2(x: nat): (p: nat)
    requires x >= 1
    ensures x <= Pow2(p) && (p > 0 ==> Pow2(p - 1) < x)
  {
    if x == 1 then 0 else 1 + CeilLog2((x + 1) / 2)
  }

  /** The number of bits of x: the least p with x < 2^p. */
  function BitLength(x: nat): (p: nat)
    ensures x < Pow2(p) && (p > 0 ==> Pow2(p - 1) <= x)
  {
    if x == 0 then 0 else 1 + BitLength(x / 2)
  }

  /** BIPARAM as written: ceil(log2(max)), or 1 for max <= 0, at most 63. */
  function BiParameterAsWritten(hi: I64): (p: U64)
    ensures p < 64
  {
    var bits := if hi > 0 then CeilLog2(hi) else 1;
    if bits < 63 then bits else 63
  }

  /** BIPARAM with the bit length of max: the fewest bits that hold max. */
  function BiParameter(hi: I64): (p: U64)
    ensures p < 64
  {
    var bits := if hi > 0 then BitLength(hi) else 1;
    if bits < 63 then bits else 63
  }

  /** candidates[binID] of getOptimumOfBinarization; TU takes max converted
      to a 32-bit unsigned, at most 255. */
  function ParamCandidates(bin: Binarization, hi: I64): (r: seq<U64>)
    ensures forall p :: p in r ==> BorderDefined(bin, p)
  {
    match bin
    case BI => [BiParameter(hi)]
    case TU => var m := hi % TWO_32; [if m < 255 then m else 255]
    case EG => [0]
    case SEG => [0]
    case TEG => BINARIZATION_PARAMETERS
    case STEG => BINARIZATION_PARAMETERS
  }

  /** The binarizations tried: the unsigned ones when min >= 0. */
  function BinarizationCandidates(lo: I64): seq<Binarization>
  {
    if lo >= 0 then UNSIGNED_BINARIZATIONS else SIGNED_BINARIZATIONS
  }

  // ---------------------------------------------------------------------------
  // The running best

  /** One encoding tried: the configuration, the LUT bytes in front and the
      encoded stream. */
  datatype Candidate = Candidate(config: StreamConfig, lut: seq<Byte>, stream: seq<Byte>)

  /** bestByteStream and bestConfig. */
  datatype Best<C> = Best(bytes: seq<Byte>, config: C)

  /** The update of getOptimumOfBinarizationParameter: the candidate, framed
      behind its LUT, replaces the best when the best is empty or when the
      stream, the LUT and the four size bytes are shorter than it. */
  function Offer(codec: Codec, b: Best<StreamConfig>, c: Candidate): Best<StreamConfig>
  {
    if |c.stream| + |c.lut| + 4 < |b.bytes| || b.bytes == [] then
      Best(codec.appendToBytestream(c.lut, c.stream), c.config)
    else b
  }

  /** The best after offering every candidate in order. */
  function Fold(codec: Codec, b: Best<StreamConfig>, cs: seq<Candidate>): Best<StreamConfig>
  {
    if cs == [] then b else Offer(codec, Fold(codec, b, cs[..|cs| - 1]), cs[|cs| - 1])
  }

  // ---------------------------------------------------------------------------
  // The candidates of each level, for the first n entries of its list

  /** getOptimumOfBinarizationParameter: one candidate per context mode. */
  function ContextCands(codec: Codec, s: seq<I64>, bin: Binarization, p: U64, lut: seq<Byte>,
                        cur: StreamConfig, n: nat): (r: seq<Candidate>)
    requires n <= |CONTEXTS|
    ensures |r| == n
  {
    if n == 0 then []
    else
      var ctx := CONTEXTS[n - 1];
      ContextCands(codec, s, bin, p, lut, cur, n - 1)
        + [Candidate(cur.(contextSelectionId := ctx), lut, codec.encode(s, bin, p, ctx))]
  }

  /** getOptimumOfBinarization: the contexts of each parameter that passes
      sbCheck. */
  function ParamCands(codec: Codec, s: seq<I64>, bin: Binarization, lo: I64, hi: I64, lut: seq<Byte>,
                      cur: StreamConfig, n: nat): seq<Candidate>
    requires n <= |ParamCandidates(bin, hi)|
  {
    if n == 0 then []
    else
      var p := ParamCandidates(bin, hi)[n - 1];
      ParamCands(codec, s, bin, lo, hi, lut, cur, n - 1)
        + (if SbCheck(bin, lo, hi, p)
           then ContextCands(codec, s, bin, p, lut, cur.(binarizationParameters := [p]), |CONTEXTS|)
           else [])
  }

  /** getOptimumOfDiffTransformedStream: the parameters of each binarization
      chosen by the sign of the minimum. */
  function BinCands(codec: Codec, s: seq<I64>, ws: nat, lut: seq<Byte>, cur: StreamConfig, n: nat): seq<Candidate>
    requires Known(ws) && n <= |BinarizationCandidates(DerivedMinMax(s, ws).0)|
  {
    var (lo, hi) := DerivedMinMax(s, ws);
    if n == 0 then []
    else
      var bin := BinarizationCandidates(lo)[n - 1];
      BinCands(codec, s, ws, lut, cur, n - 1)
        + ParamCands(codec, s, bin, lo, hi, lut, cur.(binarizationId := bin), |ParamCandidates(bin, hi)|)
  }

  /** The binarizations of the diff-transformed sequence for one diff
      parameter. */
  function DiffTry(codec: Codec, s: seq<U64>, ws: nat, lut: seq<Byte>, cur: StreamConfig, d: bool): seq<Candidate>
    requires Known(ws)
  {
    var diffed := codec.diffTransform(d, s);
    BinCands(codec, diffed, ws, lut, cur.(diffCodingEnabled := d), |BinarizationCandidates(DerivedMinMax(diffed, ws).0)|)
  }

  /** getOptimumOfLutTransformedStream: each diff parameter. */
  function DiffCands(codec: Codec, s: seq<U64>, ws: nat, lut: seq<Byte>, cur: StreamConfig, n: nat): seq<Candidate>
    requires Known(ws) && n <= |DIFF_PARAMETERS|
  {
    if n == 0 then []
    else DiffCands(codec, s, ws, lut, cur, n - 1) + DiffTry(codec, s, ws, lut, cur, DIFF_PARAMETERS[n - 1])
  }

  /** One LUT parameter of getOptimumOfLutOrder: no candidates when LUT off
      is asked for with an order other than 0, or when the transformed
      sequence has another length than the input. */
  function LutTry(codec: Codec, s: seq<U64>, ws: nat, cur: StreamConfig, on: bool): seq<Candidate>
    requires Known(ws)
  {
    if !on && cur.lutOrder != 0 then []
    else
      var r := codec.lutTransform(on, s, cur.lutOrder);
      if |r.sequence| != |s| then []
      else DiffCands(codec, r.sequence, ws, r.table, cur.(lutBits := r.bits, lutTransformationEnabled := on), |DIFF_PARAMETERS|)
  }

  /** getOptimumOfLutOrder: each LUT parameter. */
  function LutCands(codec: Codec, s: seq<U64>, ws: nat, cur: StreamConfig, n: nat): seq<Candidate>
    requires Known(ws) && n <= |LUT_PARAMETERS|
  {
    if n == 0 then [] else LutCands(codec, s, ws, cur, n - 1) + LutTry(codec, s, ws, cur, LUT_PARAMETERS[n - 1])
  }

  /** getOptimumOfTransformedStream: each LUT order, from a fresh
      configuration. */
  function OrderCands(codec: Codec, s: seq<U64>, ws: nat, n: nat): seq<Candidate>
    requires Known(ws) && n <= |LUT_ORDERS|
  {
    if n == 0 then []
    else OrderCands(codec, s, ws, n - 1) + LutCands(codec, s, ws, BLANK.(lutOrder := LUT_ORDERS[n - 1]), |LUT_PARAMETERS|)
  }

  /** The best encoding of one transformed sequence, from `init`. */
  function StreamBest(codec: Codec, s: seq<U64>, ws: nat, init: Best<StreamConfig>): Best<StreamConfig>
    requires Known(ws)
  {
    Fold(codec, init, OrderCands(codec, s, ws, |LUT_ORDERS|))
  }

  // ---------------------------------------------------------------------------
  // getOptimumOfSequenceTransform and above

  /** The search for one transformed sequence, given the sequence, its word
      size and the configuration entry it starts from; the levels above are
      stated for any such search. */
  type StreamSearch = (seq<U64>, nat, StreamConfig) -> Best<StreamConfig>

  /** getOptimumOfTransformedStream, from an empty best stream. */
  function Searcher(codec: Codec): StreamSearch
  {
    (s: seq<U64>, ws: nat, init: StreamConfig) => if Known(ws) then StreamBest(codec, s, ws, Best([], init)) else Best([], init)
  }

  /** `search` agrees with getOptimumOfTransformedStream of `codec` on every
      sequence with a supported word size, started from an empty best
      stream. The quantifier is instantiated only where such a search has
      been carried out, which keeps the candidate enumeration out of the
      levels above. */
  ghost predicate Performs(codec: Codec, search: StreamSearch)
  {
    forall s: seq<U64>, ws: nat, init: Best<StreamConfig> {:trigger StreamBest(codec, s, ws, init)} ::
      Known(ws) && init.bytes == [] ==> search(s, ws, init.config) == StreamBest(codec, s, ws, init)
  }

  /** The state of the loop over the transformed sequences: whether it broke
      off, the concatenated best streams and the configuration entries. */
  datatype Assembly = Assembly(failed: bool, complete: seq<Byte>, streams: seq<StreamConfig>)

  predicate AllKnown(wss: seq<nat>)
  {
    forall i :: 0 <= i < |wss| ==> Known(wss[i])
  }

  /** One turn of the loop over the transformed sequences: entry i takes the
      configuration found; no stream found breaks off, otherwise the stream
      is appended and the loop breaks off once the concatenation is no
      shorter than a nonempty `limit`. */
  function Absorb(a: Assembly, i: nat, b: Best<StreamConfig>, limit: seq<Byte>): (r: Assembly)
    requires i < |a.streams|
    ensures |r.streams| == |a.streams|
  {
    var entries := a.streams[i := b.config];
    if b.bytes == [] then Assembly(true, a.complete, entries)
    else
      var complete := a.complete + b.bytes;
      Assembly(|complete| >= |limit| && limit != [], complete, entries)
  }

  /** The first n transformed sequences, each searched for its best stream
      from its configuration entry, until the loop breaks off. */
  function Assemble(search: StreamSearch, ts: seq<seq<U64>>, wss: seq<nat>, streams: seq<StreamConfig>,
                    limit: seq<Byte>, n: nat): (a: Assembly)
    requires n <= |ts| <= |wss| && |streams| == |ts|
    ensures |a.streams| == |ts|
  {
    if n == 0 then Assembly(false, [], streams)
    else
      var a := Assemble(search, ts, wss, streams, limit, n - 1);
      if a.failed then a
      else Absorb(a, n - 1, search(ts[n - 1], wss[n - 1], a.streams[n - 1]), limit)
  }

  /** vector::resize: cut to n entries or padded with zeroed ones. */
  function Resize(v: seq<StreamConfig>, n: nat): (r: seq<StreamConfig>)
    ensures |r| == n
  {
    if n <= |v| then v[..n] else v + seq(n - |v|, _ => BLANK)
  }

  /** bestByteStream, bestConfig and currentConfig of the outer levels. */
  datatype Search = Search(best: Best<Configuration>, current: Configuration)

  lemma FixedSizesKnown(t: Transformation, ws: nat)
    requires Known(ws)
    ensures AllKnown(FixWordSizes(WordSizes(t), ws))
  {
  }

  /** One parameter of getOptimumOfSequenceTransform: transform, assemble,
      and take the complete stream when it is shorter than the best or the
      best is empty. */
  function TryParameter(codec: Codec, search: StreamSearch, symbols: seq<U64>, st: Search, p: U32): (r: Search)
    requires StreamCountsAgree(codec)
  {
    var id := st.current.sequenceTransformationId;
    var ts := codec.sequenceTransform(symbols, id, p);
    var wss := FixWordSizes(WordSizes(id), st.current.wordSize);
    var a := Assemble(search, ts, wss, Resize(st.current.streams, |ts|), st.best.bytes, |ts|);
    var cur := st.current.(sequenceTransformationParameter := p, streams := a.streams);
    if !a.failed && (|a.complete| < |st.best.bytes| || st.best.bytes == []) then Search(Best(a.complete, cur), cur)
    else Search(st.best, cur)
  }

  /** The first n parameters of `ps`. */
  function TryParameters(codec: Codec, search: StreamSearch, symbols: seq<U64>, ps: seq<U32>, st: Search, n: nat): (r: Search)
    requires StreamCountsAgree(codec) && n <= |ps|
  {
    if n == 0 then st
    else TryParameter(codec, search, symbols, TryParameters(codec, search, symbols, ps, st, n - 1), ps[n - 1])
  }

  /** getOptimumOfSymbolSequence: the first n transformations. */
  function TryTransformations(codec: Codec, search: StreamSearch, symbols: seq<U64>, st: Search, n: nat): (r: Search)
    requires StreamCountsAgree(codec) && n <= |SEQUENCE_TRANSFORMATIONS|
  {
    if n == 0 then st
    else
      var prev := TryTransformations(codec, search, symbols, st, n - 1);
      var t := SEQUENCE_TRANSFORMATIONS[n - 1];
      var next := Search(prev.best, prev.current.(sequenceTransformationId := t));
      TryParameters(codec, search, symbols, SequenceParameters(t), next, |SequenceParameters(t)|)
  }

  /** The outcome of encode_analyze: "NO CONFIG FOUND", or the smallest
      byte stream and its configuration. */
  datatype Outcome = Running(best: Best<Configuration>) | NoConfigFound

  /** The first n word sizes of encode_analyze; those that do not divide the
      input size are skipped. */
  function TryWordSizes(codec: Codec, search: StreamSearch, input: seq<Byte>, n: nat): Outcome
    requires StreamCountsAgree(codec) && n <= |WORD_SIZES|
  {
    if n == 0 then Running(Best([], DEFAULT_CONFIGURATION))
    else
      match TryWordSizes(codec, search, input, n - 1)
      case NoConfigFound => NoConfigFound
      case Running(b) =>
        var w := WORD_SIZES[n - 1];
        if |input| % w != 0 then Running(b)
        else
          var st := TryTransformations(codec, search, WordsOf(input, w), Search(b, DEFAULT_CONFIGURATION.(wordSize := w)),
                                       |SEQUENCE_TRANSFORMATIONS|);
          if st.best.bytes == [] then NoConfigFound else Running(st.best)
  }

  function Analyze(codec: Codec, input: seq<Byte>): Outcome
    requires StreamCountsAgree(codec)
  {
    TryWordSizes(codec, Searcher(codec), input, |WORD_SIZES|)
  }
}
