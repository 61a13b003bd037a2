// Reader: the readAs* decoding loops of reader.cpp, pulling bins from an
// abstract binary arithmetic decoder. The decoder is the sequence of bin
// values it will deliver; the reader's state is how many it has taken and
// the context it named for each, which must be the contexts the writer
// coded them in for the values to be the writer's.
module Readers {
  import opened Bytes
  import opened BitSeqs
  import opened Constants
  import opened Binarizations
  import opened ContextSelector
  import opened Symbols

  /** The first n contexts of a run. */
  function RunContexts(run: Run, n: nat): (r: seq<Ctx>)
    ensures |r| == n
  {
    seq(n, k requires 0 <= k < n => CtxAt(run, k))
  }

  /** The contexts of a coded run depend on its length only. */
  lemma {:induction false} ContextsCoded(bits: seq<bool>, run: Run)
    ensures Contexts(Coded(bits, run)) == RunContexts(run, |bits|)
  {
  }

  lemma {:induction false} RunContextsSnoc(run: Run, n: nat)
    ensures RunContexts(run, n + 1) == RunContexts(run, n) + [CtxAt(run, n)]
  {
  }

  /** A bit shifted into a 32-bit accumulator: only the low 32 bits of the
      exact value survive. */
  lemma {:induction false} ShiftInWrap(v: nat, bit: nat)
    ensures (2 * (v % TWO_32) + bit) % TWO_32 == (2 * v + bit) % TWO_32
  {
    var q := v / TWO_32;
    var r := v % TWO_32;
    assert 2 * v + bit == TWO_32 * (2 * q) + (2 * r + bit);
    ModAddMultiple(2 * r + bit, TWO_32, 2 * q);
  }

  /** The accumulator of readAsBIcabac after one more bin of s. */
  lemma {:induction false} ShiftInPrefix(s: seq<bool>, i: nat)
    requires i < |s|
    ensures Value(s[..i + 1]) % TWO_32 == (2 * (Value(s[..i]) % TWO_32) + (if s[i] then 1 else 0)) % TWO_32
  {
    assert s[..i + 1][..i] == s[..i];
    ShiftInWrap(Value(s[..i]), if s[i] then 1 else 0);
  }

  /** TEG when TU stops below the threshold: the TU value alone. */
  lemma {:induction false} ReadTEGShort(s: seq<bool>, p: nat, v: nat, k: nat)
    requires ReadTU(s, p) == Some((v, k)) && v != p
    ensures ReadTEG(s, p) == Some((v, k))
  {
  }

  /** TEG when TU reaches the threshold p: an EG code follows it. */
  lemma {:induction false} ReadTEGNeedsEG(s: seq<bool>, p: nat, k: nat)
    requires ReadTEG(s, p).Some? && ReadTU(s, p) == Some((p, k))
    ensures k <= |s| && ReadEG(s[k..]).Some?
  {
  }

  /** TEG at the threshold p: p plus the EG value after the TU bins. */
  lemma {:induction false} ReadTEGLong(s: seq<bool>, p: nat, k: nat, rest: nat, m: nat)
    requires ReadTU(s, p) == Some((p, k)) && k <= |s| && ReadEG(s[k..]) == Some((rest, m))
    ensures ReadTEG(s, p) == Some((p + rest, k + m))
  {
  }

  /** The contexts of TEG from p on: those of TU's p ones, then EG's. */
  lemma {:induction false} TEGContexts(before: seq<Ctx>, afterTU: seq<Ctx>, after: seq<Ctx>, p: nat, rest: nat,
                                       tu: Run, eg: Run)
    requires afterTU == before + Contexts(TUBins(p, p, tu))
    requires after == afterTU + Contexts(EGBins(rest, eg))
    ensures after == before + Contexts(TEGBins(p + rest, p, tu, eg))
  {
    ContextsAppend(TUBins(p, p, tu), EGBins(rest, eg));
  }

  /** STEG after a TEG magnitude v: zero stands alone, any other magnitude
      is followed by its sign bin. */
  lemma {:induction false} ReadSTEGParts(s: seq<bool>, p: nat, v: nat, k: nat)
    requires ReadSTEG(s, p).Some? && ReadTEG(s, p) == Some((v, k))
    ensures v == 0 ==> ReadSTEG(s, p) == Some((0, k))
    ensures v != 0 ==> k < |s| && ReadSTEG(s, p) == Some((if s[k] then -(v as int) else v, k + 1))
  {
  }

  /** The contexts of a non-zero STEG symbol r: its magnitude's TEG bins,
      then the sign bin. */
  lemma {:induction false} STEGContexts(before: seq<Ctx>, afterTEG: seq<Ctx>, after: seq<Ctx>, v: nat, sign: nat,
                                        r: int, p: nat, tu: Run, eg: Run, bi: Run)
    requires v != 0 && sign <= 1 && r == (if sign == 1 then -(v as int) else v)
    requires afterTEG == before + Contexts(TEGBins(v, p, tu, eg))
    requires after == afterTEG + Contexts(BIBins(sign, 1, bi))
    ensures after == before + Contexts(STEGBins(r, p, tu, eg, bi))
  {
    assert STEGBins(r, p, tu, eg, bi) == TEGBins(v, p, tu, eg) + BIBins(sign, 1, bi);
    ContextsAppend(TEGBins(v, p, tu, eg), BIBins(sign, 1, bi));
  }

  /** A one-bin BI read is the sign bin: 1 for a set bin. */
  lemma {:induction false} SignOf(s: seq<bool>, sign: nat)
    requires |s| > 0 && ReadBI(s, 1) == Some((sign, 1))
    ensures sign <= 1 && (sign == 1 <==> s[0])
  {
    assert s[..1] == [s[0]];
    assert [s[0]][..0] == [];
  }

  /** TU after i ones: the next bin exists while fewer than cMax ones have
      been read. */
  lemma {:induction false} ReadTUContinues(s: seq<bool>, cMax: nat, i: nat)
    requires ReadTU(s, cMax).Some?
    requires i < cMax && i <= |s| && forall k :: 0 <= k < i ==> s[k]
    ensures i < |s|
    decreases i
  {
    if i > 0 {
      ReadTUContinues(s[1..], cMax - 1, i - 1);
    }
  }

  /** TU stops after i ones when i is cMax or a zero follows them. */
  lemma {:induction false} ReadTUStops(s: seq<bool>, cMax: nat, i: nat)
    requires i <= cMax && i <= |s| && forall k :: 0 <= k < i ==> s[k]
    requires i == cMax || (i < |s| && !s[i])
    ensures ReadTU(s, cMax) == Some((i, if i == cMax then i else i + 1))
    decreases i
  {
    if i > 0 {
      ReadTUStops(s[1..], cMax - 1, i - 1);
    }
  }

  /** The bin after i zeros is the first one exactly when i zeros lead s. */
  lemma {:induction false} LeadingOne(s: seq<bool>, i: nat)
    requires ReadEG(s).Some? && i <= LeadingZeros(s)
    ensures s[i] <==> i == LeadingZeros(s)
  {
    LeadingZerosSpec(s);
    if i < LeadingZeros(s) {
      assert s[..LeadingZeros(s)][i] == s[i];
    }
  }

  /** EG's bins in the order they are read: LZ + 1 contexts of the run, then
      LZ bypass contexts. */
  lemma {:induction false} EGContexts(s: seq<bool>, run: Run)
    requires ReadEG(s).Some?
    ensures Contexts(EGBins(ReadEG(s).value.0, run))
            == RunContexts(run, LeadingZeros(s) + 1) + RunContexts(EP, LeadingZeros(s))
  {
    var x := ReadEG(s).value.0;
    var n := BitLength(x + 1) - 1;
    ReadEGExact(s);
    assert n == LeadingZeros(s);
    ContextsAppend(Coded(Copies(false, n) + [true], run), Coded(BitsOf(x + 1 - Pow2(n), n), EP));
    ContextsCoded(Copies(false, n) + [true], run);
    ContextsCoded(BitsOf(x + 1 - Pow2(n), n), EP);
  }

  /** EG after its i > 0 leading zeros, the one and i bits of value
      suffix: (2^i + suffix) - 1, in i + 1 contexts of the run and i bypass
      bins. */
  lemma {:induction false} ReadEGFrom(s: seq<bool>, i: nat, suffix: nat, r: nat, run: Run,
                                      before: seq<Ctx>, mid: seq<Ctx>, after: seq<Ctx>)
    requires ReadEG(s).Some? && i == LeadingZeros(s) && 2 * i + 1 <= |s|
    requires suffix == Value(s[i + 1..2 * i + 1]) && r == Pow2(i) + suffix - 1
    requires mid == before + RunContexts(run, i + 1) && after == mid + RunContexts(EP, i)
    ensures ReadEG(s) == Some((r, 2 * i + 1))
    ensures after == before + Contexts(EGBins(r, run))
  {
    ReadEGUnfold(s, ReadEG(s).value.0, ReadEG(s).value.1);
    EGContexts(s, run);
    assert after == before + (RunContexts(run, i + 1) + RunContexts(EP, i));
  }

  /** EG with no leading zero: the single bin 1, for 0. */
  lemma {:induction false} ReadEGOne(s: seq<bool>, run: Run, before: seq<Ctx>, after: seq<Ctx>)
    requires ReadEG(s).Some? && LeadingZeros(s) == 0
    requires after == before + RunContexts(run, 1)
    ensures ReadEG(s) == Some((0, 1))
    ensures after == before + Contexts(EGBins(0, run))
  {
    assert s[1..1] == [];
    EGContexts(s, run);
    assert RunContexts(EP, 0) == [];
  }

  class Reader {
    /** The bin values the arithmetic decoder delivers, in order. */
    const values: seq<bool>
    /** The layout of the context table the reader was built with. */
    const layout: Layout
    /** How many bins have been decoded. */
    var pos: nat
    /** The context named for every bin decoded so far, in order. */
    var requested: seq<Ctx>

    predicate Valid()
      reads this
    {
      pos <= |values|
    }

    constructor (values: seq<bool>, layout: Layout)
      ensures Valid()
      ensures this.values == values && this.layout == layout
      ensures pos == 0 && requested == []
    {
      this.values := values;
      this.layout := layout;
      pos := 0;
      requested := [];
    }

    /** decodeBin: the next bin, in the context named. */
    method DecodeBin(ctx: Ctx) returns (bin: bool)
      requires Valid() && pos < |values|
      modifies this
      ensures Valid()
      ensures bin == values[old(pos)] && pos == old(pos) + 1
      ensures requested == old(requested) + [ctx]
    {
      bin := values[pos];
      pos := pos + 1;
      requested := requested + [ctx];
    }

    /** decodeBinsEP: the next n bins, bypass, as a number most significant
        bin first. */
    method DecodeBinsEP(n: nat) returns (v: nat)
      requires Valid() && pos + n <= |values|
      modifies this
      ensures Valid()
      ensures v == Value(values[old(pos)..old(pos) + n]) && pos == old(pos) + n
      ensures requested == old(requested) + RunContexts(EP, n)
    {
      v := Value(values[pos..pos + n]);
      pos := pos + n;
      requested := requested + RunContexts(EP, n);
    }

    // -------------------------------------------------------------------------
    // BI

    method ReadAsBIBypass(cLength: nat) returns (r: nat)
      requires Valid() && ReadBI(values[pos..], cLength).Some?
      modifies this
      ensures Valid()
      ensures ReadBI(values[old(pos)..], cLength) == Some((r, pos - old(pos)))
      ensures requested == old(requested) + Contexts(BIBins(r, cLength, EP))
    {
      ghost var bits := values[pos..pos + cLength];
      assert values[pos..][..cLength] == bits;
      r := DecodeBinsEP(cLength);
      BitsOfValue(bits);
      ContextsCoded(BitsOf(r, cLength), EP);
    }

    /** readAsBIcabac: cLength bins in consecutive contexts from the set's
        first, shifted into a 32-bit accumulator. */
    method ReadAsBICabac(cLength: nat, offset: nat) returns (r: nat)
      requires Valid() && ReadBI(values[pos..], cLength).Some?
      requires ModeValid(layout, Adaptive(offset))
      modifies this
      ensures Valid() && pos == old(pos) + cLength
      ensures r == Value(values[old(pos)..pos]) % TWO_32
      ensures cLength <= 32 ==> ReadBI(values[old(pos)..], cLength) == Some((r, cLength))
      ensures cLength <= 32 ==>
        requested == old(requested) + Contexts(BIBins(r, cLength, BiRun(layout, Adaptive(offset))))
    {
      var run := BiRun(layout, Adaptive(offset));
      var cm := ContextForBi(layout, offset, 0);
      ghost var s := values[pos..];
      var bins := 0;
      for i := 0 to cLength
        invariant Valid() && pos == old(pos) + i
        invariant bins == Value(s[..i]) % TWO_32
        invariant requested == old(requested) + RunContexts(run, i)
      {
        var bin := DecodeBin(Model(cm + i));
        ShiftInPrefix(s, i);
        bins := (bins * 2 + (if bin then 1 else 0)) % TWO_32;
        RunContextsSnoc(run, i);
      }
      r := bins;
      assert s[..cLength] == values[old(pos)..pos];
      if cLength <= 32 {
        Pow2Monotone(cLength, 32);
        Pow2Of32();
        ModSmall(Value(s[..cLength]), TWO_32);
        BitsOfValue(s[..cLength]);
        ContextsCoded(BitsOf(r, cLength), run);
      }
    }

    // -------------------------------------------------------------------------
    // TU

    /** The loop both TU readers run: ones are counted, in consecutive
        contexts of the run, until a zero or the cMax-th one. A cMax of 0
        reads nothing. */
    method ReadUnary(cMax: nat, run: Run) returns (r: nat)
      requires Valid() && ReadTU(values[pos..], cMax).Some?
      modifies this
      ensures Valid()
      ensures ReadTU(values[old(pos)..], cMax) == Some((r, pos - old(pos)))
      ensures requested == old(requested) + Contexts(TUBins(r, cMax, run))
    {
      ghost var s := values[pos..];
      var i := 0;
      if cMax == 0 {
        ReadTUStops(s, cMax, 0);
        ContextsCoded(TUCode(0, cMax), run);
        return 0;
      }
      ReadTUContinues(s, cMax, 0);
      var bin := DecodeBin(CtxAt(run, i));
      while bin
        invariant Valid() && i < cMax && pos == old(pos) + i + 1
        invariant forall k :: 0 <= k < i ==> s[k]
        invariant bin == s[i]
        invariant requested == old(requested) + RunContexts(run, i + 1)
        decreases cMax - i
      {
        i := i + 1;
        if i == cMax {
          break;
        }
        ReadTUContinues(s, cMax, i);
        bin := DecodeBin(CtxAt(run, i));
        RunContextsSnoc(run, i);
      }
      r := i;
      ReadTUStops(s, cMax, i);
      ContextsCoded(TUCode(r, cMax), run);
    }

    method ReadAsTUBypass(cMax: nat) returns (r: nat)
      requires Valid() && ReadTU(values[pos..], cMax).Some?
      modifies this
      ensures Valid()
      ensures ReadTU(values[old(pos)..], cMax) == Some((r, pos - old(pos)))
      ensures requested == old(requested) + Contexts(TUBins(r, cMax, EP))
    {
      r := ReadUnary(cMax, EP);
    }

    method ReadAsTUCabac(cMax: nat, offset: nat) returns (r: nat)
      requires Valid() && ReadTU(values[pos..], cMax).Some?
      requires ModeValid(layout, Adaptive(offset))
      modifies this
      ensures Valid()
      ensures ReadTU(values[old(pos)..], cMax) == Some((r, pos - old(pos)))
      ensures requested == old(requested) + Contexts(TUBins(r, cMax, TuRun(layout, Adaptive(offset))))
    {
      r := ReadUnary(cMax, TuRun(layout, Adaptive(offset)));
    }

    // -------------------------------------------------------------------------
    // EG

    /** The loop both EG readers run: zeros are counted, in consecutive
        contexts of the run, up to the first one; i zeros are followed by i
        bypass bits b and give (1 << i | b) - 1. */
    method ReadExpGolomb(run: Run) returns (r: nat)
      requires Valid() && ReadEG(values[pos..]).Some?
      modifies this
      ensures Valid()
      ensures ReadEG(values[old(pos)..]) == Some((r, pos - old(pos)))
      ensures requested == old(requested) + Contexts(EGBins(r, run))
    {
      ghost var s := values[pos..];
      var i := CountZeros(run);
      if i != 0 {
        assert values[pos..pos + i] == s[i + 1..2 * i + 1];
        ghost var mid := requested;
        var suffix := DecodeBinsEP(i);
        var bins := Pow2(i) + suffix;
        r := bins - 1;
        ReadEGFrom(s, i, suffix, r, run, old(requested), mid, requested);
      } else {
        r := 0;
        ReadEGOne(s, run, old(requested), requested);
      }
    }

    /** The prefix loop of readAsEG*: bins are read in consecutive contexts
        of the run up to the first one. */
    method CountZeros(run: Run) returns (i: nat)
      requires Valid() && ReadEG(values[pos..]).Some?
      modifies this
      ensures Valid()
      ensures i == LeadingZeros(values[old(pos)..]) && pos == old(pos) + i + 1
      ensures requested == old(requested) + RunContexts(run, i + 1)
    {
      ghost var s := values[pos..];
      ghost var n := LeadingZeros(s);
      i := 0;
      var bin := DecodeBin(CtxAt(run, i));
      while !bin
        invariant Valid() && pos == old(pos) + i + 1
        invariant i <= n && bin == s[i]
        invariant requested == old(requested) + RunContexts(run, i + 1)
        decreases n - i
      {
        LeadingOne(s, i);
        i := i + 1;
        bin := DecodeBin(CtxAt(run, i));
        RunContextsSnoc(run, i);
      }
      LeadingOne(s, i);
    }

    method ReadAsEGBypass() returns (r: nat)
      requires Valid() && ReadEG(values[pos..]).Some?
      modifies this
      ensures Valid()
      ensures ReadEG(values[old(pos)..]) == Some((r, pos - old(pos)))
      ensures requested == old(requested) + Contexts(EGBins(r, EP))
    {
      r := ReadExpGolomb(EP);
    }

    method ReadAsEGCabac(offset: nat) returns (r: nat)
      requires Valid() && ReadEG(values[pos..]).Some?
      requires ModeValid(layout, Adaptive(offset))
      modifies this
      ensures Valid()
      ensures ReadEG(values[old(pos)..]) == Some((r, pos - old(pos)))
      ensures requested == old(requested) + Contexts(EGBins(r, EgRun(layout, Adaptive(offset))))
    {
      r := ReadExpGolomb(EgRun(layout, Adaptive(offset)));
    }

    // -------------------------------------------------------------------------
    // SEG

    /** The sign mapping of readAsSEG*: an even index t is -(t >> 1) (0 for
        0), an odd one (t + 1) >> 1. */
    method UnmapSigned(tmp: nat) returns (r: int)
      ensures r == SegUnmap(tmp)
    {
      if tmp % 2 == 0 {
        if tmp == 0 {
          return 0;
        } else {
          return -1 * (tmp / 2);
        }
      } else {
        return (tmp + 1) / 2;
      }
    }

    method ReadAsSEGBypass() returns (r: int)
      requires Valid() && ReadEG(values[pos..]).Some?
      modifies this
      ensures Valid()
      ensures ReadSEG(values[old(pos)..]) == Some((r, pos - old(pos)))
      ensures InSegRange(r) ==> requested == old(requested) + Contexts(SEGBins(r, EP))
    {
      var tmp := ReadAsEGBypass();
      r := UnmapSigned(tmp);
      if InSegRange(r) {
        SegUnmapRoundTrip(tmp);
      }
    }

    method ReadAsSEGCabac(offset: nat) returns (r: int)
      requires Valid() && ReadEG(values[pos..]).Some?
      requires ModeValid(layout, Adaptive(offset))
      modifies this
      ensures Valid()
      ensures ReadSEG(values[old(pos)..]) == Some((r, pos - old(pos)))
      ensures InSegRange(r) ==>
        requested == old(requested) + Contexts(SEGBins(r, EgRun(layout, Adaptive(offset))))
    {
      var tmp := ReadAsEGCabac(offset);
      r := UnmapSigned(tmp);
      if InSegRange(r) {
        SegUnmapRoundTrip(tmp);
      }
    }

    // -------------------------------------------------------------------------
    // TEG and STEG

    method ReadAsTEGBypass(treshold: nat) returns (r: nat)
      requires Valid() && ReadTEG(values[pos..], treshold).Some?
      modifies this
      ensures Valid()
      ensures ReadTEG(values[old(pos)..], treshold) == Some((r, pos - old(pos)))
      ensures requested == old(requested) + Contexts(TEGBins(r, treshold, EP, EP))
    {
      ghost var s := values[pos..];
      var value := ReadAsTUBypass(treshold);
      ghost var k := pos - old(pos);
      if value == treshold {
        ReadTEGNeedsEG(s, treshold, k);
        assert values[pos..] == s[k..];
        ghost var tu := requested;
        var rest := ReadAsEGBypass();
        ReadTEGLong(s, treshold, k, rest, pos - old(pos) - k);
        value := value + rest;
        TEGContexts(old(requested), tu, requested, treshold, rest, EP, EP);
      } else {
        ReadTEGShort(s, treshold, value, k);
      }
      r := value;
    }

    method ReadAsTEGCabac(treshold: nat, offset: nat) returns (r: nat)
      requires Valid() && ReadTEG(values[pos..], treshold).Some?
      requires ModeValid(layout, Adaptive(offset))
      modifies this
      ensures Valid()
      ensures ReadTEG(values[old(pos)..], treshold) == Some((r, pos - old(pos)))
      ensures requested == old(requested) + Contexts(TEGBins(r, treshold, TuRun(layout, Adaptive(offset)),
                                                              EgRun(layout, Adaptive(offset))))
    {
      ghost var s := values[pos..];
      ghost var tuRun := TuRun(layout, Adaptive(offset));
      ghost var egRun := EgRun(layout, Adaptive(offset));
      var value := ReadAsTUCabac(treshold, offset);
      ghost var k := pos - old(pos);
      if value == treshold {
        ReadTEGNeedsEG(s, treshold, k);
        assert values[pos..] == s[k..];
        ghost var tu := requested;
        var rest := ReadAsEGCabac(offset);
        ReadTEGLong(s, treshold, k, rest, pos - old(pos) - k);
        value := value + rest;
        TEGContexts(old(requested), tu, requested, treshold, rest, tuRun, egRun);
      } else {
        ReadTEGShort(s, treshold, value, k);
      }
      r := value;
    }

    /** The sign bin of STEG: a one-bin readAsBIbypass or readAsBIcabac. */
    method ReadSign(mode: Mode) returns (negative: bool)
      requires Valid() && pos < |values| && ModeValid(layout, mode)
      modifies this
      ensures Valid() && pos == old(pos) + 1 && negative == values[old(pos)]
      ensures requested == old(requested) + Contexts(BIBins(if negative then 1 else 0, 1, BiRun(layout, mode)))
    {
      ghost var s := values[pos..];
      var sign;
      if mode.Bypass? {
        sign := ReadAsBIBypass(1);
      } else {
        sign := ReadAsBICabac(1, mode.offset);
      }
      SignOf(s, sign);
      negative := sign == 1;
    }

    method ReadAsSTEGBypass(treshold: nat) returns (r: int)
      requires Valid() && ReadSTEG(values[pos..], treshold).Some?
      modifies this
      ensures Valid()
      ensures ReadSTEG(values[old(pos)..], treshold) == Some((r, pos - old(pos)))
      ensures requested == old(requested) + Contexts(STEGBins(r, treshold, EP, EP, EP))
    {
      ghost var s := values[pos..];
      var value := ReadAsTEGBypass(treshold);
      ghost var k := pos - old(pos);
      ReadSTEGParts(s, treshold, value, k);
      r := value;
      if value != 0 {
        ghost var teg := requested;
        var negative := ReadSign(Bypass);
        if negative {
          r := -(value as int);
        }
        assert negative == s[k];
        STEGContexts(old(requested), teg, requested, value, if negative then 1 else 0, r, treshold, EP, EP, EP);
      }
    }

    method ReadAsSTEGCabac(treshold: nat, offset: nat) returns (r: int)
      requires Valid() && ReadSTEG(values[pos..], treshold).Some?
      requires ModeValid(layout, Adaptive(offset))
      modifies this
      ensures Valid()
      ensures ReadSTEG(values[old(pos)..], treshold) == Some((r, pos - old(pos)))
      ensures requested == old(requested) + Contexts(STEGBins(r, treshold, TuRun(layout, Adaptive(offset)),
                                                              EgRun(layout, Adaptive(offset)),
                                                              BiRun(layout, Adaptive(offset))))
    {
      ghost var s := values[pos..];
      var value := ReadAsTEGCabac(treshold, offset);
      ghost var k := pos - old(pos);
      ReadSTEGParts(s, treshold, value, k);
      r := value;
      if value != 0 {
        ghost var teg := requested;
        var negative := ReadSign(Adaptive(offset));
        if negative {
          r := -(value as int);
        }
        assert negative == s[k];
        STEGContexts(old(requested), teg, requested, value, if negative then 1 else 0, r, treshold,
                     TuRun(layout, Adaptive(offset)), EgRun(layout, Adaptive(offset)), BiRun(layout, Adaptive(offset)));
      }
    }

    // -------------------------------------------------------------------------
    // One symbol of each binarization, bypass or adaptive

    /** The BI symbol v of n bins, through readAsBIbypass or readAsBIcabac, asking for
        the contexts c of its bins. */
    method ReadBISymbol(p: nat, mode: Mode, ghost v: nat, ghost n: nat, ghost c: seq<Ctx>) returns (r: nat)
      requires Valid() && ModeValid(layout, mode) && p <= 32
      requires ReadBI(values[pos..], p) == Some((v, n))
      requires c == Contexts(BIBins(v, p, BiRun(layout, mode)))
      modifies this
      ensures Valid() && r == v && pos == old(pos) + n
      ensures requested == old(requested) + c
    {
      if mode.Bypass? {
        assert BiRun(layout, mode) == EP;
        r := ReadAsBIBypass(p);
      } else {
        r := ReadAsBICabac(p, mode.offset);
      }
    }

    /** The TU symbol v of n bins, through readAsTUbypass or readAsTUcabac, asking for
        the contexts c of its bins. */
    method ReadTUSymbol(p: nat, mode: Mode, ghost v: nat, ghost n: nat, ghost c: seq<Ctx>) returns (r: nat)
      requires Valid() && ModeValid(layout, mode)
      requires ReadTU(values[pos..], p) == Some((v, n))
      requires c == Contexts(TUBins(v, p, TuRun(layout, mode)))
      modifies this
      ensures Valid() && r == v && pos == old(pos) + n
      ensures requested == old(requested) + c
    {
      if mode.Bypass? {
        assert TuRun(layout, mode) == EP;
        r := ReadAsTUBypass(p);
      } else {
        r := ReadAsTUCabac(p, mode.offset);
      }
    }

    /** The EG symbol v of n bins, through readAsEGbypass or readAsEGcabac, asking for
        the contexts c of its bins. */
    method ReadEGSymbol(mode: Mode, ghost v: nat, ghost n: nat, ghost c: seq<Ctx>) returns (r: nat)
      requires Valid() && ModeValid(layout, mode)
      requires ReadEG(values[pos..]) == Some((v, n))
      requires c == Contexts(EGBins(v, EgRun(layout, mode)))
      modifies this
      ensures Valid() && r == v && pos == old(pos) + n
      ensures requested == old(requested) + c
    {
      if mode.Bypass? {
        assert EgRun(layout, mode) == EP;
        r := ReadAsEGBypass();
      } else {
        r := ReadAsEGCabac(mode.offset);
      }
    }

    /** The SEG symbol v of n bins, through readAsSEGbypass or readAsSEGcabac, asking for
        the contexts c of its bins. */
    method ReadSEGSymbol(mode: Mode, ghost v: int, ghost n: nat, ghost c: seq<Ctx>) returns (r: int)
      requires Valid() && ModeValid(layout, mode)
      requires ReadSEG(values[pos..]) == Some((v, n))
      requires InSegRange(v) ==> c == Contexts(SEGBins(v, EgRun(layout, mode)))
      modifies this
      ensures Valid() && r == v && pos == old(pos) + n
      ensures InSegRange(r) ==> requested == old(requested) + c
    {
      if mode.Bypass? {
        assert EgRun(layout, mode) == EP;
        r := ReadAsSEGBypass();
      } else {
        r := ReadAsSEGCabac(mode.offset);
      }
    }

    /** The TEG symbol v of n bins, through readAsTEGbypass or readAsTEGcabac, asking for
        the contexts c of its bins. */
    method ReadTEGSymbol(p: nat, mode: Mode, ghost v: nat, ghost n: nat, ghost c: seq<Ctx>) returns (r: nat)
      requires Valid() && ModeValid(layout, mode)
      requires ReadTEG(values[pos..], p) == Some((v, n))
      requires c == Contexts(TEGBins(v, p, TuRun(layout, mode), EgRun(layout, mode)))
      modifies this
      ensures Valid() && r == v && pos == old(pos) + n
      ensures requested == old(requested) + c
    {
      if mode.Bypass? {
        assert TuRun(layout, mode) == EP && EgRun(layout, mode) == EP;
        r := ReadAsTEGBypass(p);
      } else {
        r := ReadAsTEGCabac(p, mode.offset);
      }
    }

    /** The STEG symbol v of n bins, through readAsSTEGbypass or readAsSTEGcabac, asking for
        the contexts c of its bins. */
    method ReadSTEGSymbol(p: nat, mode: Mode, ghost v: int, ghost n: nat, ghost c: seq<Ctx>) returns (r: int)
      requires Valid() && ModeValid(layout, mode)
      requires ReadSTEG(values[pos..], p) == Some((v, n))
      requires c == Contexts(STEGBins(v, p, TuRun(layout, mode), EgRun(layout, mode), BiRun(layout, mode)))
      modifies this
      ensures Valid() && r == v && pos == old(pos) + n
      ensures requested == old(requested) + c
    {
      if mode.Bypass? {
        assert TuRun(layout, mode) == EP && EgRun(layout, mode) == EP && BiRun(layout, mode) == EP;
        r := ReadAsSTEGBypass(p);
      } else {
        r := ReadAsSTEGCabac(p, mode.offset);
      }
    }

    // -------------------------------------------------------------------------
    // Dispatch

    /** readBypassValue: the readAs*bypass method of the binarization, with
        the first parameter of the list. What is read is ReadSymbol's value,
        and the contexts requested are those the writer codes that value
        in. */
    method ReadBypassValue(b: Binarization, params: seq<nat>,
                                  ghost e: (int, nat), ghost c: seq<Ctx>) returns (r: int)
      requires Valid() && |params| >= ParamCount(b)
      requires ReadSymbol(b, values[pos..], Parameter(params)) == Some(e)
      requires b == BI ==> Parameter(params) <= 32
      requires (b == SEG ==> InSegRange(e.0)) ==>
                 c == Contexts(SymbolBins(layout, b, e.0, Parameter(params), Bypass))
      modifies this
      ensures Valid()
      ensures r == e.0 && pos == old(pos) + e.1
      ensures (b == SEG ==> InSegRange(r)) ==> requested == old(requested) + c
    {
      match b {
        case BI =>
          r := ReadBISymbol(Parameter(params), Bypass, e.0, e.1, c);
        case TU =>
          r := ReadTUSymbol(Parameter(params), Bypass, e.0, e.1, c);
        case EG =>
          r := ReadEGSymbol(Bypass, e.0, e.1, c);
        case SEG =>
          r := ReadSEGSymbol(Bypass, e.0, e.1, c);
        case TEG =>
          r := ReadTEGSymbol(Parameter(params), Bypass, e.0, e.1, c);
        case STEG =>
          r := ReadSTEGSymbol(Parameter(params), Bypass, e.0, e.1, c);
      }
    }

    /** readAdaptiveCabacValue: the readAs*cabac method of the binarization,
        in the context set (prevValue << 2) + prevPrevValue. */
    method ReadAdaptiveCabacValue(b: Binarization, params: seq<nat>, prevValue: nat, prevPrevValue: nat,
                                  ghost e: (int, nat), ghost c: seq<Ctx>)
      returns (r: int)
      requires Valid() && |params| >= ParamCount(b)
      requires ReadSymbol(b, values[pos..], Parameter(params)) == Some(e)
      requires b == BI ==> Parameter(params) <= 32
      requires ModeValid(layout, Adaptive(Offset(prevValue, prevPrevValue)))
      requires (b == SEG ==> InSegRange(e.0)) ==>
                 c == Contexts(SymbolBins(layout, b, e.0, Parameter(params), Adaptive(Offset(prevValue, prevPrevValue))))
      modifies this
      ensures Valid()
      ensures r == e.0 && pos == old(pos) + e.1
      ensures (b == SEG ==> InSegRange(r)) ==> requested == old(requested) + c
    {
      var offset := Offset(prevValue, prevPrevValue);
      match b {
        case BI =>
          r := ReadBISymbol(Parameter(params), Adaptive(offset), e.0, e.1, c);
        case TU =>
          r := ReadTUSymbol(Parameter(params), Adaptive(offset), e.0, e.1, c);
        case EG =>
          r := ReadEGSymbol(Adaptive(offset), e.0, e.1, c);
        case SEG =>
          r := ReadSEGSymbol(Adaptive(offset), e.0, e.1, c);
        case TEG =>
          r := ReadTEGSymbol(Parameter(params), Adaptive(offset), e.0, e.1, c);
        case STEG =>
          r := ReadSTEGSymbol(Parameter(params), Adaptive(offset), e.0, e.1, c);
      }
    }

    /** readNumSymbols and start: the count, a 32-bin bypass BI. */
    method ReadNumSymbols() returns (n: nat)
      requires Valid() && pos + 32 <= |values|
      modifies this
      ensures Valid()
      ensures ReadBI(values[old(pos)..], 32) == Some((n, 32)) && pos == old(pos) + 32
      ensures requested == old(requested) + Contexts(BIBins(n, 32, EP))
    {
      n := ReadAsBIBypass(32);
    }
  }
}
