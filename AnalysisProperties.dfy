// What the exhaustive search of gabacify/analysis.cpp guarantees: every
// candidate it tries is a legal configuration whose stream is the encoding
// of the transformed sequence under it, the best kept is no longer than any
// candidate, and the outer levels only ever replace the best by a strictly
// shorter complete stream.
module AnalysisProperties {
  import opened Bytes
  import opened Constants
  import opened DataBlocks
  import opened Helpers
  import opened AnalysisSpec

  // ---------------------------------------------------------------------------
  // The running best

  lemma {:induction false} FoldConcat(codec: Codec, b: Best<StreamConfig>, xs: seq<Candidate>, ys: seq<Candidate>)
    ensures Fold(codec, b, xs + ys) == Fold(codec, Fold(codec, b, xs), ys)
    decreases |ys|
  {
    if ys != [] {
      assert (xs + ys)[..|xs + ys| - 1] == xs + ys[..|ys| - 1];
      FoldConcat(codec, b, xs, ys[..|ys| - 1]);
    } else {
      assert xs + ys == xs;
    }
  }

  /** The fold keeps either its start or one of the candidates, framed, and
      ends no longer than any candidate's framed size or its nonempty start. */
  lemma {:induction false} FoldOptimal(codec: Codec, b: Best<StreamConfig>, cs: seq<Candidate>)
    requires Framed(codec)
    ensures var r := Fold(codec, b, cs);
      && (r == b || exists c :: c in cs && r == Best(codec.appendToBytestream(c.lut, c.stream), c.config))
      && (forall c :: c in cs ==> r.bytes != [] && |r.bytes| <= |c.lut| + 4 + |c.stream|)
      && (b.bytes != [] ==> |r.bytes| <= |b.bytes|)
  {
    if cs != [] {
      var front, last := cs[..|cs| - 1], cs[|cs| - 1];
      assert cs == front + [last];
      FoldOptimal(codec, b, front);
    }
  }

  /** The bytes found do not depend on the configuration the best starts with. */
  lemma {:induction false} FoldBytes(codec: Codec, b1: Best<StreamConfig>, b2: Best<StreamConfig>, cs: seq<Candidate>)
    requires b1.bytes == b2.bytes
    ensures Fold(codec, b1, cs).bytes == Fold(codec, b2, cs).bytes
  {
    if cs != [] {
      FoldBytes(codec, b1, b2, cs[..|cs| - 1]);
    }
  }

  // ---------------------------------------------------------------------------
  // The candidates

  /** A candidate below the LUT and diff levels: the binarization fits the
      sign of the minimum, its single parameter is one of the candidates and
      passes sbCheck, the context mode is one of the candidates, the stream
      is the encoding of `s` under them, and the LUT and diff fields are
      those of `base`. */
  ghost predicate Encodes(codec: Codec, s: seq<I64>, lo: I64, hi: I64, lut: seq<Byte>, base: StreamConfig, c: Candidate)
  {
    var cfg := c.config;
    && c.lut == lut
    && cfg.binarizationId in BinarizationCandidates(lo)
    && |cfg.binarizationParameters| == 1
    && cfg.binarizationParameters[0] in ParamCandidates(cfg.binarizationId, hi)
    && SbCheck(cfg.binarizationId, lo, hi, cfg.binarizationParameters[0])
    && cfg.contextSelectionId in CONTEXTS
    && c.stream == codec.encode(s, cfg.binarizationId, cfg.binarizationParameters[0], cfg.contextSelectionId)
    && cfg.lutTransformationEnabled == base.lutTransformationEnabled
    && cfg.lutBits == base.lutBits
    && cfg.lutOrder == base.lutOrder
    && cfg.diffCodingEnabled == base.diffCodingEnabled
  }

  /** A candidate of getOptimumOfTransformedStream for sequence `s`: LUT off
      only with order 0, the LUT transformation kept the length, the LUT
      bytes and bits are its output, and below that the diff-transformed
      LUT sequence is encoded as Encodes says. */
  ghost predicate StreamCandidate(codec: Codec, s: seq<U64>, ws: nat, c: Candidate)
    requires Known(ws)
  {
    var cfg := c.config;
    var r := codec.lutTransform(cfg.lutTransformationEnabled, s, cfg.lutOrder);
    var d := codec.diffTransform(cfg.diffCodingEnabled, r.sequence);
    && cfg.lutOrder in LUT_ORDERS
    && (cfg.lutTransformationEnabled || cfg.lutOrder == 0)
    && |r.sequence| == |s|
    && cfg.lutBits == r.bits
    && cfg.diffCodingEnabled in DIFF_PARAMETERS
    && Encodes(codec, d, DerivedMinMax(d, ws).0, DerivedMinMax(d, ws).1, r.table, cfg, c)
  }

  lemma {:induction false} ContextCandsSound(codec: Codec, s: seq<I64>, bin: Binarization, p: U64, lo: I64, hi: I64,
                                             lut: seq<Byte>, cur: StreamConfig, n: nat)
    requires n <= |CONTEXTS|
    requires bin in BinarizationCandidates(lo) && p in ParamCandidates(bin, hi) && SbCheck(bin, lo, hi, p)
    requires cur.binarizationId == bin && cur.binarizationParameters == [p]
    ensures forall c :: c in ContextCands(codec, s, bin, p, lut, cur, n) ==> Encodes(codec, s, lo, hi, lut, cur, c)
  {
    if n > 0 {
      ContextCandsSound(codec, s, bin, p, lo, hi, lut, cur, n - 1);
    }
  }

  lemma {:induction false} ContextCandsComplete(codec: Codec, s: seq<I64>, bin: Binarization, p: U64,
                                                lut: seq<Byte>, cur: StreamConfig, n: nat, k: nat)
    requires k < n <= |CONTEXTS|
    ensures Candidate(cur.(contextSelectionId := CONTEXTS[k]), lut, codec.encode(s, bin, p, CONTEXTS[k]))
              in ContextCands(codec, s, bin, p, lut, cur, n)
  {
    if k < n - 1 {
      ContextCandsComplete(codec, s, bin, p, lut, cur, n - 1, k);
    }
  }

  /** Only parameters that pass sbCheck are tried. */
  lemma {:induction false} ParamCandsSound(codec: Codec, s: seq<I64>, bin: Binarization, lo: I64, hi: I64,
                                           lut: seq<Byte>, cur: StreamConfig, n: nat)
    requires n <= |ParamCandidates(bin, hi)| && bin in BinarizationCandidates(lo) && cur.binarizationId == bin
    ensures forall c :: c in ParamCands(codec, s, bin, lo, hi, lut, cur, n) ==> Encodes(codec, s, lo, hi, lut, cur, c)
  {
    if n > 0 {
      ParamCandsSound(codec, s, bin, lo, hi, lut, cur, n - 1);
      var p := ParamCandidates(bin, hi)[n - 1];
      if SbCheck(bin, lo, hi, p) {
        ContextCandsSound(codec, s, bin, p, lo, hi, lut, cur.(binarizationParameters := [p]), |CONTEXTS|);
      }
    }
  }

  /** Every parameter that passes sbCheck is tried with every context mode. */
  lemma {:induction false} ParamCandsComplete(codec: Codec, s: seq<I64>, bin: Binarization, lo: I64, hi: I64,
                                              lut: seq<Byte>, cur: StreamConfig, n: nat, j: nat, k: nat)
    requires j < n <= |ParamCandidates(bin, hi)| && k < |CONTEXTS|
    requires SbCheck(bin, lo, hi, ParamCandidates(bin, hi)[j])
    ensures var p := ParamCandidates(bin, hi)[j];
      Candidate(cur.(binarizationParameters := [p], contextSelectionId := CONTEXTS[k]), lut, codec.encode(s, bin, p, CONTEXTS[k]))
        in ParamCands(codec, s, bin, lo, hi, lut, cur, n)
  {
    if j < n - 1 {
      ParamCandsComplete(codec, s, bin, lo, hi, lut, cur, n - 1, j, k);
    } else {
      var p := ParamCandidates(bin, hi)[j];
      ContextCandsComplete(codec, s, bin, p, lut, cur.(binarizationParameters := [p]), |CONTEXTS|, k);
    }
  }

  lemma {:induction false} BinCandsSound(codec: Codec, s: seq<I64>, ws: nat, lut: seq<Byte>, cur: StreamConfig, n: nat)
    requires Known(ws) && n <= |BinarizationCandidates(DerivedMinMax(s, ws).0)|
    ensures forall c :: c in BinCands(codec, s, ws, lut, cur, n) ==>
              Encodes(codec, s, DerivedMinMax(s, ws).0, DerivedMinMax(s, ws).1, lut, cur, c)
  {
    if n > 0 {
      BinCandsSound(codec, s, ws, lut, cur, n - 1);
      var (lo, hi) := DerivedMinMax(s, ws);
      var bin := BinarizationCandidates(lo)[n - 1];
      ParamCandsSound(codec, s, bin, lo, hi, lut, cur.(binarizationId := bin), |ParamCandidates(bin, hi)|);
    }
  }

  lemma {:induction false} DiffCandsSound(codec: Codec, s: seq<U64>, ws: nat, lut: seq<Byte>, cur: StreamConfig, n: nat)
    requires Known(ws) && n <= |DIFF_PARAMETERS|
    ensures forall c :: c in DiffCands(codec, s, ws, lut, cur, n) ==>
              var d := codec.diffTransform(c.config.diffCodingEnabled, s);
              && c.config.diffCodingEnabled in DIFF_PARAMETERS
              && Encodes(codec, d, DerivedMinMax(d, ws).0, DerivedMinMax(d, ws).1, lut,
                         cur.(diffCodingEnabled := c.config.diffCodingEnabled), c)
  {
    if n > 0 {
      DiffCandsSound(codec, s, ws, lut, cur, n - 1);
      var dp := DIFF_PARAMETERS[n - 1];
      var d := codec.diffTransform(dp, s);
      BinCandsSound(codec, d, ws, lut, cur.(diffCodingEnabled := dp), |BinarizationCandidates(DerivedMinMax(d, ws).0)|);
    }
  }

  /** The LUT rules: LUT off only with order 0, and only transformations
      that keep the length are tried. */
  lemma {:induction false} LutCandsSound(codec: Codec, s: seq<U64>, ws: nat, cur: StreamConfig, n: nat)
    requires Known(ws) && n <= |LUT_PARAMETERS| && cur.lutOrder in LUT_ORDERS
    ensures forall c :: c in LutCands(codec, s, ws, cur, n) ==> c.config.lutOrder == cur.lutOrder && StreamCandidate(codec, s, ws, c)
  {
    if n > 0 {
      LutCandsSound(codec, s, ws, cur, n - 1);
      var on := LUT_PARAMETERS[n - 1];
      if on || cur.lutOrder == 0 {
        var r := codec.lutTransform(on, s, cur.lutOrder);
        if |r.sequence| == |s| {
          DiffCandsSound(codec, r.sequence, ws, r.table, cur.(lutBits := r.bits, lutTransformationEnabled := on), |DIFF_PARAMETERS|);
        }
      }
    }
  }

  lemma {:induction false} OrderCandsSound(codec: Codec, s: seq<U64>, ws: nat, n: nat)
    requires Known(ws) && n <= |LUT_ORDERS|
    ensures forall c :: c in OrderCands(codec, s, ws, n) ==> StreamCandidate(codec, s, ws, c)
  {
    if n > 0 {
      OrderCandsSound(codec, s, ws, n - 1);
      LutCandsSound(codec, s, ws, BLANK.(lutOrder := LUT_ORDERS[n - 1]), |LUT_PARAMETERS|);
    }
  }

  /** getOptimumOfTransformedStream: the best found for one sequence is a
      legal candidate, framed behind its LUT, no longer than any candidate. */
  lemma StreamBestOptimal(codec: Codec, s: seq<U64>, ws: nat, init: StreamConfig)
    requires Framed(codec) && Known(ws)
    ensures var b := StreamBest(codec, s, ws, Best([], init));
      && (b.bytes == [] <==> OrderCands(codec, s, ws, |LUT_ORDERS|) == [])
      && (b.bytes != [] ==> exists c :: c in OrderCands(codec, s, ws, |LUT_ORDERS|) && StreamCandidate(codec, s, ws, c)
                                      && b == Best(codec.appendToBytestream(c.lut, c.stream), c.config))
      && (forall c :: c in OrderCands(codec, s, ws, |LUT_ORDERS|) ==> |b.bytes| <= |c.lut| + 4 + |c.stream|)
  {
    var cs := OrderCands(codec, s, ws, |LUT_ORDERS|);
    FoldOptimal(codec, Best([], init), cs);
    OrderCandsSound(codec, s, ws, |LUT_ORDERS|);
    if cs != [] {
      assert cs[0] in cs;
    }
  }

  // ---------------------------------------------------------------------------
  // The binarization parameter of BI

  lemma Pow2Of63()
    ensures Pow2(63) == TWO_63
  {
    Pow2Pow256(8);
    WordModIsPow256(8);
    assert Pow2(64) == 2 * Pow2(63);
  }

  lemma {:induction false} CeilLog2OfPow2(k: nat)
    ensures CeilLog2(Pow2(k)) == k
  {
    var p := CeilLog2(Pow2(k));
    if p < k {
      Pow2Monotone(p + 1, k);
    } else if p > k {
      Pow2Monotone(k, p - 1);
    }
  }

  /** As written, BIPARAM for a maximum that is a power of two has one bit
      too few: BI's range 0..2^p-1 leaves out the maximum, so sbCheck fails
      and BI is never tried (for instance on a stream of zeros and ones). */
  lemma BiAsWrittenRejectsPowersOfTwo(lo: I64, hi: I64, k: nat)
    requires k < 63 && hi == Pow2(k)
    ensures BiParameterAsWritten(hi) == k
    ensures !SbCheck(BI, lo, hi, BiParameterAsWritten(hi))
  {
    CeilLog2OfPow2(k);
    Pow2Bound(k);
  }

  /** With the bit length, BI's parameter always passes sbCheck on an
      unsigned stream, and for a positive maximum no smaller one would. */
  lemma BiParameterFits(lo: I64, hi: I64, p: U64)
    requires 0 <= lo <= hi
    ensures SbCheck(BI, lo, hi, BiParameter(hi))
    ensures 0 < hi && p < BiParameter(hi) ==> !SbCheck(BI, lo, hi, p)
  {
    var bits := BitLength(hi);
    Pow2Of63();
    if bits > 63 {
      Pow2Monotone(63, bits - 1);
    }
    Pow2Bound(BiParameter(hi));
    if 0 < hi && p < BiParameter(hi) {
      Pow2Monotone(p, bits - 1);
      Pow2Bound(p);
    }
  }

  /** 2^k has k + 1 bits. */
  lemma {:induction false} BitLengthOfPow2(k: nat)
    ensures BitLength(Pow2(k)) == k + 1
  {
    var b := BitLength(Pow2(k));
    if b <= k { Pow2Monotone(b, k); }
    if b > k + 1 { Pow2Monotone(k + 1, b - 1); }
  }

  /** Below a power of two's neighbours, ceil(log2(x)) is the bit length. */
  lemma {:induction false} CeilLog2OfNonPow2(x: nat)
    requires x >= 1 && Pow2(CeilLog2(x)) != x
    ensures CeilLog2(x) == BitLength(x)
  {
    var c, b := CeilLog2(x), BitLength(x);
    if b < c { Pow2Monotone(b, c - 1); }
    if c < b { Pow2Monotone(c, b - 1); }
  }

  /** The two BI widths differ exactly at the powers of two: for a
      positive maximum that is no power of two (2^ceil(log2(max)) is not
      max), ceil(log2(max)) is its bit length. */
  lemma {:induction false} BiParameterAgrees(hi: I64)
    ensures BiParameterAsWritten(hi) == BiParameter(hi) <==> (hi <= 0 || Pow2(CeilLog2(hi)) != hi)
  {
    if hi > 0 {
      var c, b := CeilLog2(hi), BitLength(hi);
      Pow2Of63();
      if b > 63 { Pow2Monotone(63, b - 1); }
      if Pow2(c) != hi {
        CeilLog2OfNonPow2(hi);
      } else {
        if c >= 63 { Pow2Monotone(63, c); }
        BitLengthOfPow2(c);
      }
    }
  }

  // ---------------------------------------------------------------------------
  // The outer levels

  lemma StreamBestBytes(codec: Codec, s: seq<U64>, ws: nat, init: StreamConfig)
    requires Known(ws)
    ensures StreamBest(codec, s, ws, Best([], init)).bytes == StreamBest(codec, s, ws, Best([], BLANK)).bytes
  {
    FoldBytes(codec, Best([], init), Best([], BLANK), OrderCands(codec, s, ws, |LUT_ORDERS|));
  }

  /** The stream found does not depend on the configuration entry the search
      starts from. */
  ghost predicate EntryIndependent(search: StreamSearch)
  {
    forall s, ws, c1, c2 :: search(s, ws, c1).bytes == search(s, ws, c2).bytes
  }

  lemma SearcherEntryIndependent(codec: Codec)
    ensures EntryIndependent(Searcher(codec))
  {
    forall s, ws, c1, c2 ensures Searcher(codec)(s, ws, c1).bytes == Searcher(codec)(s, ws, c2).bytes {
      if Known(ws) {
        StreamBestBytes(codec, s, ws, c1);
        StreamBestBytes(codec, s, ws, c2);
      }
    }
  }

  /** The search the levels above are run with is getOptimumOfTransformedStream. */
  lemma SearcherPerforms(codec: Codec)
    ensures Performs(codec, Searcher(codec))
  {
    forall s: seq<U64>, ws: nat, init: Best<StreamConfig> | Known(ws) && init.bytes == []
      ensures Searcher(codec)(s, ws, init.config) == StreamBest(codec, s, ws, init)
    {
      assert init == Best([], init.config);
    }
  }

  /** The best stream of one transformed sequence. */
  ghost function StreamBytes(search: StreamSearch, s: seq<U64>, ws: nat): seq<Byte>
  {
    search(s, ws, BLANK).bytes
  }

  /** The best streams of the first n transformed sequences, concatenated. */
  ghost function Concat(search: StreamSearch, ts: seq<seq<U64>>, wss: seq<nat>, n: nat): seq<Byte>
    requires n <= |ts| <= |wss|
  {
    if n == 0 then [] else Concat(search, ts, wss, n - 1) + StreamBytes(search, ts[n - 1], wss[n - 1])
  }

  ghost predicate AllFound(search: StreamSearch, ts: seq<seq<U64>>, wss: seq<nat>, n: nat)
    requires n <= |ts| <= |wss|
  {
    forall i :: 0 <= i < n ==> StreamBytes(search, ts[i], wss[i]) != []
  }

  lemma AbsorbSpec(a: Assembly, i: nat, b: Best<StreamConfig>, limit: seq<Byte>, before: seq<Byte>, found: seq<Byte>)
    requires i < |a.streams| && !a.failed && a.complete == before && b.bytes == found
    ensures var r := Absorb(a, i, b, limit);
      && (!r.failed <==> found != [] && (limit == [] || |before + found| < |limit|))
      && (!r.failed ==> r.complete == before + found)
  {
  }

  /** The loop over the transformed sequences completes exactly when every
      sequence has a best stream and their concatenation is shorter than a
      nonempty limit; it then holds that concatenation. */
  lemma {:induction false} AssembleSpec(search: StreamSearch, ts: seq<seq<U64>>, wss: seq<nat>, streams: seq<StreamConfig>,
                                        limit: seq<Byte>, n: nat)
    requires n <= |ts| <= |wss| && |streams| == |ts| && EntryIndependent(search)
    ensures var a := Assemble(search, ts, wss, streams, limit, n);
      && (!a.failed <==> AllFound(search, ts, wss, n) && (limit == [] || |Concat(search, ts, wss, n)| < |limit|))
      && (!a.failed ==> a.complete == Concat(search, ts, wss, n))
  {
    if n > 0 {
      AssembleSpec(search, ts, wss, streams, limit, n - 1);
      var a := Assemble(search, ts, wss, streams, limit, n - 1);
      var found := StreamBytes(search, ts[n - 1], wss[n - 1]);
      var b := search(ts[n - 1], wss[n - 1], a.streams[n - 1]);
      assert AllFound(search, ts, wss, n) <==> AllFound(search, ts, wss, n - 1) && found != [];
      if !a.failed {
        AbsorbSpec(a, n - 1, b, limit, Concat(search, ts, wss, n - 1), found);
      }
    }
  }

  /** One best replacing another: unchanged, or nonempty and strictly
      shorter than a nonempty predecessor. */
  ghost predicate Improves<C>(b: Best<C>, b': Best<C>)
  {
    b' == b || (b'.bytes != [] && (b.bytes == [] || |b'.bytes| < |b.bytes|))
  }

  lemma ImprovesTransitive<C>(b1: Best<C>, b2: Best<C>, b3: Best<C>)
    requires Improves(b1, b2) && Improves(b2, b3)
    ensures Improves(b1, b3)
  {
  }

  /** One parameter of getOptimumOfSequenceTransform: the best is replaced
      exactly when every sequence found a stream and their concatenation is
      shorter than the best (or the best is empty), and then by that
      concatenation and the configuration entries found. */
  lemma TryParameterSpec(codec: Codec, search: StreamSearch, symbols: seq<U64>, st: Search, p: U32)
    requires StreamCountsAgree(codec) && EntryIndependent(search)
    ensures var id := st.current.sequenceTransformationId;
      var ts := codec.sequenceTransform(symbols, id, p);
      var wss := FixWordSizes(WordSizes(id), st.current.wordSize);
      var r := TryParameter(codec, search, symbols, st, p);
      && |ts| == |wss|
      && r.current == st.current.(sequenceTransformationParameter := p, streams := r.current.streams)
      && |r.current.streams| == |ts|
      && (if AllFound(search, ts, wss, |ts|) && (st.best.bytes == [] || |Concat(search, ts, wss, |ts|)| < |st.best.bytes|)
          then r.best == Best(Concat(search, ts, wss, |ts|), r.current)
          else r.best == st.best)
      && Improves(st.best, r.best)
  {
    var id := st.current.sequenceTransformationId;
    var ts := codec.sequenceTransform(symbols, id, p);
    var wss := FixWordSizes(WordSizes(id), st.current.wordSize);
    AssembleSpec(search, ts, wss, Resize(st.current.streams, |ts|), st.best.bytes, |ts|);
    assert |WordSizes(id)| > 0;
    if AllFound(search, ts, wss, |ts|) {
      assert StreamBytes(search, ts[|ts| - 1], wss[|ts| - 1]) != [];
    }
  }

  /** A loop over at least one sequence that did not break off has appended
      a nonempty stream. */
  lemma {:induction false} AssembleNonempty(search: StreamSearch, ts: seq<seq<U64>>, wss: seq<nat>, streams: seq<StreamConfig>,
                                            limit: seq<Byte>, n: nat)
    requires n <= |ts| <= |wss| && |streams| == |ts|
    ensures var a := Assemble(search, ts, wss, streams, limit, n);
      n > 0 && !a.failed ==> a.complete != []
  {
    if n > 1 {
      AssembleNonempty(search, ts, wss, streams, limit, n - 1);
    }
  }

  lemma TryParameterImproves(codec: Codec, search: StreamSearch, symbols: seq<U64>, st: Search, p: U32)
    requires StreamCountsAgree(codec)
    ensures Improves(st.best, TryParameter(codec, search, symbols, st, p).best)
  {
    var id := st.current.sequenceTransformationId;
    var ts := codec.sequenceTransform(symbols, id, p);
    assert |WordSizes(id)| > 0;
    AssembleNonempty(search, ts, FixWordSizes(WordSizes(id), st.current.wordSize),
                     Resize(st.current.streams, |ts|), st.best.bytes, |ts|);
  }

  lemma {:induction false} TryParametersImprove(codec: Codec, search: StreamSearch, symbols: seq<U64>, ps: seq<U32>, st: Search, n: nat)
    requires StreamCountsAgree(codec) && n <= |ps|
    ensures Improves(st.best, TryParameters(codec, search, symbols, ps, st, n).best)
  {
    if n > 0 {
      TryParametersImprove(codec, search, symbols, ps, st, n - 1);
      TryParametersStep(codec, search, symbols, ps, st, n);
    }
  }

  lemma TryParametersStep(codec: Codec, search: StreamSearch, symbols: seq<U64>, ps: seq<U32>, st: Search, n: nat)
    requires StreamCountsAgree(codec) && 0 < n <= |ps|
    requires Improves(st.best, TryParameters(codec, search, symbols, ps, st, n - 1).best)
    ensures Improves(st.best, TryParameters(codec, search, symbols, ps, st, n).best)
  {
    var prev := TryParameters(codec, search, symbols, ps, st, n - 1);
    TryParameterImproves(codec, search, symbols, prev, ps[n - 1]);
    ImprovesTransitive(st.best, prev.best, TryParameter(codec, search, symbols, prev, ps[n - 1]).best);
  }

  /** getOptimumOfSymbolSequence never lengthens or empties the best. */
  lemma {:induction false} TryTransformationsImprove(codec: Codec, search: StreamSearch, symbols: seq<U64>, st: Search, n: nat)
    requires StreamCountsAgree(codec) && n <= |SEQUENCE_TRANSFORMATIONS|
    ensures Improves(st.best, TryTransformations(codec, search, symbols, st, n).best)
  {
    if n > 0 {
      TryTransformationsImprove(codec, search, symbols, st, n - 1);
      TryTransformationImproves(codec, search, symbols, st, n - 1);
      ImprovesTransitive(st.best, TryTransformations(codec, search, symbols, st, n - 1).best,
                         TryTransformations(codec, search, symbols, st, n).best);
    }
  }

  lemma TryTransformationImproves(codec: Codec, search: StreamSearch, symbols: seq<U64>, st: Search, n: nat)
    requires StreamCountsAgree(codec) && n < |SEQUENCE_TRANSFORMATIONS|
    ensures Improves(TryTransformations(codec, search, symbols, st, n).best, TryTransformations(codec, search, symbols, st, n + 1).best)
  {
    var prev := TryTransformations(codec, search, symbols, st, n);
    var t := SEQUENCE_TRANSFORMATIONS[n];
    TryParametersImprove(codec, search, symbols, SequenceParameters(t), Search(prev.best, prev.current.(sequenceTransformationId := t)), |SequenceParameters(t)|);
  }

  /** The search over word size 1 from nothing. */
  ghost function FirstSearch(codec: Codec, input: seq<Byte>): Best<Configuration>
    requires StreamCountsAgree(codec)
  {
    TryTransformations(codec, Searcher(codec), WordsOf(input, 1),
                       Search(Best([], DEFAULT_CONFIGURATION), DEFAULT_CONFIGURATION.(wordSize := 1)),
                       |SEQUENCE_TRANSFORMATIONS|).best
  }

  /** encode_analyze dies exactly when word size 1 finds nothing; otherwise
      it returns a nonempty stream no longer than word size 1's; word size 4
      is skipped when it does not divide the input size. */
  lemma AnalyzeOutcome(codec: Codec, input: seq<Byte>)
    requires StreamCountsAgree(codec)
    ensures Analyze(codec, input) == NoConfigFound <==> FirstSearch(codec, input).bytes == []
    ensures Analyze(codec, input).Running? ==> Improves(FirstSearch(codec, input), Analyze(codec, input).best)
    ensures Analyze(codec, input).Running? ==> Analyze(codec, input).best.bytes != []
    ensures |input| % 4 != 0 && FirstSearch(codec, input).bytes != [] ==> Analyze(codec, input) == Running(FirstSearch(codec, input))
  {
    var search := Searcher(codec);
    var first := FirstSearch(codec, input);
    assert TryWordSizes(codec, search, input, 1) == if first.bytes == [] then NoConfigFound else Running(first);
    if first.bytes != [] && |input| % 4 == 0 {
      SearcherEntryIndependent(codec);
      TryTransformationsImprove(codec, search, WordsOf(input, 4), Search(first, DEFAULT_CONFIGURATION.(wordSize := 4)),
                                |SEQUENCE_TRANSFORMATIONS|);
    }
  }
}
