// The loops of gabacify/analysis.cpp. Each getOptimumOf* function becomes a
// method whose best-so-far (bestByteStream with bestConfig) is passed in and
// returned instead of written through pointers, proved equal to the fold the
// functions of AnalysisSpec describe.
module Analysis {
  import opened Bytes
  import opened Constants
  import opened DataBlocks
  import opened Helpers
  import opened AnalysisSpec
  import opened AnalysisProperties

  lemma ContextCandsNext(codec: Codec, s: seq<I64>, bin: Binarization, p: U64, lut: seq<Byte>, cur: StreamConfig, n: nat)
    requires n < |CONTEXTS|
    ensures ContextCands(codec, s, bin, p, lut, cur, n + 1) == ContextCands(codec, s, bin, p, lut, cur, n)
              + [Candidate(cur.(contextSelectionId := CONTEXTS[n]), lut, codec.encode(s, bin, p, CONTEXTS[n]))]
  {
  }

  /** getOptimumOfBinarizationParameter: each context mode encodes the
      sequence; the encoding, behind the LUT bytes, replaces the best when
      it is shorter or the best is empty. */
  method OptimumOfBinarizationParameter(codec: Codec, s: seq<I64>, bin: Binarization, p: U64, lut: seq<Byte>,
                                        cur: StreamConfig, best: Best<StreamConfig>) returns (best': Best<StreamConfig>)
    ensures best' == Fold(codec, best, ContextCands(codec, s, bin, p, lut, cur, |CONTEXTS|))
  {
    best' := best;
    for i := 0 to |CONTEXTS|
      invariant best' == Fold(codec, best, ContextCands(codec, s, bin, p, lut, cur, i))
    {
      var ctx := CONTEXTS[i];
      var config := cur.(contextSelectionId := ctx);
      var stream := codec.encode(s, bin, p, ctx);
      ghost var before := ContextCands(codec, s, bin, p, lut, cur, i);
      ghost var cs := ContextCands(codec, s, bin, p, lut, cur, i + 1);
      ContextCandsNext(codec, s, bin, p, lut, cur, i);
      assert cs[..|cs| - 1] == before;
      ghost var offered := Offer(codec, best', Candidate(config, lut, stream));
      if |stream| + |lut| + 4 < |best'.bytes| || best'.bytes == [] {
        best' := Best(codec.appendToBytestream(lut, stream), config);
      }
      assert best' == offered;
    }
  }

  /** getOptimumOfBinarization: each candidate parameter that passes
      sbCheck, as the single binarization parameter. */
  method OptimumOfBinarization(codec: Codec, s: seq<I64>, bin: Binarization, lo: I64, hi: I64, lut: seq<Byte>,
                               cur: StreamConfig, best: Best<StreamConfig>) returns (best': Best<StreamConfig>)
    ensures best' == Fold(codec, best, ParamCands(codec, s, bin, lo, hi, lut, cur, |ParamCandidates(bin, hi)|))
  {
    var candidates := ParamCandidates(bin, hi);
    best' := best;
    for i := 0 to |candidates|
      invariant best' == Fold(codec, best, ParamCands(codec, s, bin, lo, hi, lut, cur, i))
    {
      var p := candidates[i];
      if SbCheck(bin, lo, hi, p) {
        var config := cur.(binarizationParameters := [p]);
        FoldConcat(codec, best, ParamCands(codec, s, bin, lo, hi, lut, cur, i), ContextCands(codec, s, bin, p, lut, config, |CONTEXTS|));
        best' := OptimumOfBinarizationParameter(codec, s, bin, p, lut, config, best');
      } else {
        assert ParamCands(codec, s, bin, lo, hi, lut, cur, i + 1) == ParamCands(codec, s, bin, lo, hi, lut, cur, i) + [];
        assert ParamCands(codec, s, bin, lo, hi, lut, cur, i) + [] == ParamCands(codec, s, bin, lo, hi, lut, cur, i);
      }
    }
  }

  /** getOptimumOfDiffTransformedStream: the unsigned binarizations when
      the minimum is not negative, the signed ones otherwise. */
  method OptimumOfDiffTransformedStream(codec: Codec, s: seq<I64>, ws: nat, lut: seq<Byte>,
                                        cur: StreamConfig, best: Best<StreamConfig>) returns (best': Best<StreamConfig>)
    requires Known(ws)
    ensures best' == Fold(codec, best, BinCands(codec, s, ws, lut, cur, |BinarizationCandidates(DerivedMinMax(s, ws).0)|))
  {
    var lo, hi := DeriveMinMax(s, ws);
    var candidates := if lo >= 0 then UNSIGNED_BINARIZATIONS else SIGNED_BINARIZATIONS;
    best' := best;
    for i := 0 to |candidates|
      invariant best' == Fold(codec, best, BinCands(codec, s, ws, lut, cur, i))
    {
      var bin := candidates[i];
      var config := cur.(binarizationId := bin);
      FoldConcat(codec, best, BinCands(codec, s, ws, lut, cur, i), ParamCands(codec, s, bin, lo, hi, lut, config, |ParamCandidates(bin, hi)|));
      best' := OptimumOfBinarization(codec, s, bin, lo, hi, lut, config, best');
    }
  }

  /** getOptimumOfLutTransformedStream: each diff parameter, on the
      diff-transformed sequence. */
  method OptimumOfLutTransformedStream(codec: Codec, s: seq<U64>, ws: nat, lut: seq<Byte>,
                                       cur: StreamConfig, best: Best<StreamConfig>) returns (best': Best<StreamConfig>)
    requires Known(ws)
    ensures best' == Fold(codec, best, DiffCands(codec, s, ws, lut, cur, |DIFF_PARAMETERS|))
  {
    best' := best;
    for i := 0 to |DIFF_PARAMETERS|
      invariant best' == Fold(codec, best, DiffCands(codec, s, ws, lut, cur, i))
    {
      var d := DIFF_PARAMETERS[i];
      var diffStream := codec.diffTransform(d, s);
      var config := cur.(diffCodingEnabled := d);
      FoldConcat(codec, best, DiffCands(codec, s, ws, lut, cur, i), DiffTry(codec, s, ws, lut, cur, d));
      best' := OptimumOfDiffTransformedStream(codec, diffStream, ws, lut, config, best');
    }
  }

  /** getOptimumOfLutOrder: LUT off (only with order 0) and on; a LUT
      transformation that changes the length is skipped. */
  method OptimumOfLutOrder(codec: Codec, s: seq<U64>, ws: nat, cur: StreamConfig, best: Best<StreamConfig>)
      returns (best': Best<StreamConfig>)
    requires Known(ws)
    ensures best' == Fold(codec, best, LutCands(codec, s, ws, cur, |LUT_PARAMETERS|))
  {
    best' := best;
    for i := 0 to |LUT_PARAMETERS|
      invariant best' == Fold(codec, best, LutCands(codec, s, ws, cur, i))
    {
      var on := LUT_PARAMETERS[i];
      FoldConcat(codec, best, LutCands(codec, s, ws, cur, i), LutTry(codec, s, ws, cur, on));
      if !on && cur.lutOrder != 0 {
        continue;
      }
      var r := codec.lutTransform(on, s, cur.lutOrder);
      var config := cur.(lutBits := r.bits, lutTransformationEnabled := on);
      if |r.sequence| != |s| {
        continue;
      }
      best' := OptimumOfLutTransformedStream(codec, r.sequence, ws, r.table, config, best');
    }
  }

  /** getOptimumOfTransformedStream: each LUT order, from a fresh
      configuration. */
  method OptimumOfTransformedStream(codec: Codec, s: seq<U64>, ws: nat, best: Best<StreamConfig>)
      returns (best': Best<StreamConfig>)
    requires Known(ws)
    ensures best' == StreamBest(codec, s, ws, best)
  {
    best' := best;
    for i := 0 to |LUT_ORDERS|
      invariant best' == Fold(codec, best, OrderCands(codec, s, ws, i))
    {
      var config := BLANK.(lutOrder := LUT_ORDERS[i]);
      FoldConcat(codec, best, OrderCands(codec, s, ws, i), LutCands(codec, s, ws, config, |LUT_PARAMETERS|));
      best' := OptimumOfLutOrder(codec, s, ws, config, best');
    }
  }

  /** The call of getOptimumOfTransformedStream for one transformed
      sequence, into an empty best stream and the sequence's entry. */
  method SearchStream(codec: Codec, ghost search: StreamSearch, s: seq<U64>, ws: nat, entry: StreamConfig) returns (b: Best<StreamConfig>)
    requires Known(ws) && Performs(codec, search)
    ensures b == search(s, ws, entry)
  {
    b := OptimumOfTransformedStream(codec, s, ws, Best([], entry));
  }

  lemma {:induction false} AssembleFailedStays(search: StreamSearch, ts: seq<seq<U64>>, wss: seq<nat>, streams: seq<StreamConfig>,
                                               limit: seq<Byte>, m: nat, n: nat)
    requires m <= n <= |ts| <= |wss| && |streams| == |ts|
    requires Assemble(search, ts, wss, streams, limit, m).failed
    ensures Assemble(search, ts, wss, streams, limit, n) == Assemble(search, ts, wss, streams, limit, m)
  {
    if m < n {
      AssembleFailedStays(search, ts, wss, streams, limit, m, n - 1);
    }
  }

  lemma AssembleNext(search: StreamSearch, ts: seq<seq<U64>>, wss: seq<nat>, streams: seq<StreamConfig>, limit: seq<Byte>, i: nat)
    requires i < |ts| <= |wss| && |streams| == |ts|
    requires !Assemble(search, ts, wss, streams, limit, i).failed
    ensures var a := Assemble(search, ts, wss, streams, limit, i);
      Assemble(search, ts, wss, streams, limit, i + 1) == Absorb(a, i, search(ts[i], wss[i], a.streams[i]), limit)
  {
  }

  /** The loop of getOptimumOfSequenceTransform over the transformed
      sequences: each is searched from its configuration entry, and the
      loop breaks off when one has no stream or the concatenation is no
      shorter than a nonempty `limit`. */
  method AssembleStreams(codec: Codec, ghost search: StreamSearch, ts: seq<seq<U64>>, wss: seq<nat>, streams: seq<StreamConfig>, limit: seq<Byte>)
      returns (a: Assembly)
    requires |ts| <= |wss| && |streams| == |ts| && AllKnown(wss) && Performs(codec, search)
    ensures a == Assemble(search, ts, wss, streams, limit, |ts|)
  {
    var complete := [];
    var entries := streams;
    var i := 0;
    while i < |ts|
      invariant i <= |ts|
      invariant Assemble(search, ts, wss, streams, limit, i) == Assembly(false, complete, entries)
    {
      var stop;
      stop, complete, entries := AssembleTurn(codec, search, ts, wss, streams, limit, i, complete, entries);
      if stop {
        AssembleFailedStays(search, ts, wss, streams, limit, i + 1, |ts|);
        return Assembly(true, complete, entries);
      }
      i := i + 1;
    }
    a := Assembly(false, complete, entries);
  }

  /** One turn of that loop: search transformed sequence i, store its
      configuration, append its stream. */
  method AssembleTurn(codec: Codec, ghost search: StreamSearch, ts: seq<seq<U64>>, wss: seq<nat>, streams: seq<StreamConfig>, limit: seq<Byte>,
                      i: nat, complete: seq<Byte>, entries: seq<StreamConfig>)
      returns (stop: bool, complete': seq<Byte>, entries': seq<StreamConfig>)
    requires i < |ts| <= |wss| && |streams| == |ts| && AllKnown(wss) && Performs(codec, search)
    requires Assemble(search, ts, wss, streams, limit, i) == Assembly(false, complete, entries)
    ensures Assemble(search, ts, wss, streams, limit, i + 1) == Assembly(stop, complete', entries')
  {
    var b := SearchStream(codec, search, ts[i], wss[i], entries[i]);
    AssembleNext(search, ts, wss, streams, limit, i);
    entries' := entries[i := b.config];
    if b.bytes == [] {
      return true, complete, entries';
    }
    complete' := complete + b.bytes;
    stop := |complete'| >= |limit| && limit != [];
  }

  /** One parameter of getOptimumOfSequenceTransform. */
  method SequenceTransformStep(codec: Codec, ghost search: StreamSearch, symbols: seq<U64>, best: Best<Configuration>, current: Configuration, p: U32)
      returns (best': Best<Configuration>, current': Configuration)
    requires StreamCountsAgree(codec) && Known(current.wordSize) && Performs(codec, search)
    ensures Search(best', current') == TryParameter(codec, search, symbols, Search(best, current), p)
    ensures current'.wordSize == current.wordSize
  {
    var id := current.sequenceTransformationId;
    var ts := codec.sequenceTransform(symbols, id, p);
    var wss := FixWordSizes(WordSizes(id), current.wordSize);
    FixedSizesKnown(id, current.wordSize);
    current' := current.(sequenceTransformationParameter := p, streams := Resize(current.streams, |ts|));
    var a := AssembleStreams(codec, search, ts, wss, current'.streams, best.bytes);
    current' := current'.(streams := a.streams);
    if !a.failed && (|a.complete| < |best.bytes| || best.bytes == []) {
      best' := Best(a.complete, current');
    } else {
      best' := best;
    }
  }

  /** getOptimumOfSequenceTransform: each parameter of the current
      transformation. */
  method OptimumOfSequenceTransform(codec: Codec, ghost search: StreamSearch, symbols: seq<U64>, params: seq<U32>,
                                    best: Best<Configuration>, current: Configuration)
      returns (best': Best<Configuration>, current': Configuration)
    requires StreamCountsAgree(codec) && Known(current.wordSize) && Performs(codec, search)
    ensures Search(best', current') == TryParameters(codec, search, symbols, params, Search(best, current), |params|)
    ensures current'.wordSize == current.wordSize
  {
    best', current' := best, current;
    for i := 0 to |params|
      invariant Search(best', current') == TryParameters(codec, search, symbols, params, Search(best, current), i)
      invariant current'.wordSize == current.wordSize
    {
      best', current' := SequenceTransformStep(codec, search, symbols, best', current', params[i]);
    }
  }

  /** getOptimumOfSymbolSequence: each sequence transformation with its
      parameters. */
  method OptimumOfSymbolSequence(codec: Codec, ghost search: StreamSearch, symbols: seq<U64>, best: Best<Configuration>, current: Configuration)
      returns (best': Best<Configuration>, current': Configuration)
    requires StreamCountsAgree(codec) && Known(current.wordSize) && Performs(codec, search)
    ensures Search(best', current') == TryTransformations(codec, search, symbols, Search(best, current), |SEQUENCE_TRANSFORMATIONS|)
  {
    best', current' := best, current;
    for i := 0 to |SEQUENCE_TRANSFORMATIONS|
      invariant Search(best', current') == TryTransformations(codec, search, symbols, Search(best, current), i)
      invariant current'.wordSize == current.wordSize
    {
      var t := SEQUENCE_TRANSFORMATIONS[i];
      current' := current'.(sequenceTransformationId := t);
      best', current' := OptimumOfSequenceTransform(codec, search, symbols, SequenceParameters(t), best', current');
    }
  }

  lemma {:induction false} NoConfigFoundStays(codec: Codec, search: StreamSearch, input: seq<Byte>, m: nat, n: nat)
    requires StreamCountsAgree(codec) && m <= n <= |WORD_SIZES|
    requires TryWordSizes(codec, search, input, m) == NoConfigFound
    ensures TryWordSizes(codec, search, input, n) == NoConfigFound
  {
    if m < n {
      NoConfigFoundStays(codec, search, input, m, n - 1);
    }
  }

  /** encode_analyze on the contents of the input file: each word size that
      divides the input size, with the best carried over; "NO CONFIG FOUND"
      when the best is still empty after one. The result is what is written
      to the output and configuration files. */
  method EncodeAnalyze(codec: Codec, input: seq<Byte>) returns (outcome: Outcome)
    requires StreamCountsAgree(codec)
    ensures outcome == Analyze(codec, input)
  {
    ghost var search := Searcher(codec);
    SearcherPerforms(codec);
    var best := Best([], DEFAULT_CONFIGURATION);
    for k := 0 to |WORD_SIZES|
      invariant TryWordSizes(codec, search, input, k) == Running(best)
    {
      var w := WORD_SIZES[k];
      if |input| % w != 0 {
        continue;
      }
      var symbols := GenerateSymbolStream(input, w);
      var current := DEFAULT_CONFIGURATION.(wordSize := w);
      best, current := OptimumOfSymbolSequence(codec, search, symbols, best, current);
      if best.bytes == [] {
        assert TryWordSizes(codec, search, input, k + 1) == NoConfigFound;
        NoConfigFoundStays(codec, search, input, k + 1, |WORD_SIZES|);
        return NoConfigFound;
      }
    }
    outcome := Running(best);
  }
}
