// The binarizations of writer.cpp and reader.cpp as bin strings: BI, TU, EG,
// SEG, TEG and STEG, the codes the writer emits and the decoders the reader
// runs. The binary arithmetic coder is abstract: a bin is a value and the
// context it is coded in (a context model, or equiprobable bypass coding);
// the coder hands the decoder the values the encoder was given, as long as
// the decoder asks for every bin in the context the encoder used.
module Binarizations {
  import opened Bytes
  import opened BitSeqs

  datatype Option<T> = None | Some(value: T)

  /** The context a bin is coded in. */
  datatype Ctx = EqualProb | Model(index: nat)

  datatype Bin = Bin(value: bool, ctx: Ctx)

  /** The contexts of a run of bins: all bypass, or consecutive context
      models from `base` on (the `scan++` of the cabac loops). */
  datatype Run = EP | CM(base: nat)

  function CtxAt(run: Run, i: nat): Ctx
  {
    match run
    case EP => EqualProb
    case CM(base) => Model(base + i)
  }

  /** The bits, coded in the contexts of `run`. */
  function Coded(bits: seq<bool>, run: Run): (r: seq<Bin>)
    ensures |r| == |bits|
  {
    seq(|bits|, i requires 0 <= i < |bits| => Bin(bits[i], CtxAt(run, i)))
  }

  function Values(bins: seq<Bin>): (r: seq<bool>)
    ensures |r| == |bins|
  {
    seq(|bins|, i requires 0 <= i < |bins| => bins[i].value)
  }

  function Contexts(bins: seq<Bin>): (r: seq<Ctx>)
    ensures |r| == |bins|
  {
    seq(|bins|, i requires 0 <= i < |bins| => bins[i].ctx)
  }

  function Copies(b: bool, n: nat): (r: seq<bool>)
    ensures |r| == n
  {
    seq(n, _ => b)
  }

  lemma {:induction false} ValuesCoded(bits: seq<bool>, run: Run)
    ensures Values(Coded(bits, run)) == bits
  {
  }

  lemma {:induction false} ValuesAppend(a: seq<Bin>, b: seq<Bin>)
    ensures Values(a + b) == Values(a) + Values(b)
  {
  }

  lemma {:induction false} ContextsAppend(a: seq<Bin>, b: seq<Bin>)
    ensures Contexts(a + b) == Contexts(a) + Contexts(b)
  {
  }

  /** One more bin at the end of a run takes the run's next context. */
  lemma {:induction false} CodedSnoc(bits: seq<bool>, b: bool, run: Run)
    ensures Coded(bits + [b], run) == Coded(bits, run) + [Bin(b, CtxAt(run, |bits|))]
  {
  }

  lemma {:induction false} CodedAppendEP(a: seq<bool>, b: seq<bool>)
    ensures Coded(a + b, EP) == Coded(a, EP) + Coded(b, EP)
  {
  }

  // ---------------------------------------------------------------------------
  // Bit length

  /** The number of binary digits of v: 2^(r-1) <= v < 2^r. */
  function BitLength(v: nat): (r: nat)
    ensures v < Pow2(r)
    ensures r > 0 ==> Pow2(r - 1) <= v
    ensures v > 0 <==> r > 0
  {
    if v == 0 then 0 else 1 + BitLength(v / 2)
  }

  /** The bounds pin the bit length down. */
  lemma {:induction false} BitLengthUnique(v: nat, n: nat)
    requires n > 0 && Pow2(n - 1) <= v < Pow2(n)
    ensures BitLength(v) == n
  {
    var r := BitLength(v);
    if r < n {
      Pow2Monotone(r, n - 1);
    } else if r > n {
      Pow2Monotone(n, r - 1);
    }
  }

  /** One step of bitLength: past the threshold, shift by s and count s. */
  function Squeeze(p: (nat, nat), threshold: nat, s: nat): (nat, nat)
  {
    if p.0 > threshold then (Shr(p.0, s), p.1 + s) else p
  }

  /** bitLength of writer.cpp: four shift-and-count steps and a last test. */
  function BitLengthAsWritten(value: nat): nat
  {
    var d := Squeeze(Squeeze(Squeeze(Squeeze((value, 0), 0x7FFF, 16), 0x7F, 8), 0x7, 4), 0x1, 2);
    if d.0 > 0x0 then d.1 + 1 else d.1
  }

  /** Shifting right by s drops s digits from a number of at least s digits. */
  lemma {:induction false} BitLengthShift(v: nat, s: nat)
    requires s >= 1 && Pow2(s - 1) <= v
    ensures BitLength(v) == s + BitLength(Shr(v, s))
  {
    if s > 1 {
      BitLengthShift(v / 2, s - 1);
    }
  }

  lemma {:induction false} ShrBelow(v: nat, s: nat, t: nat)
    requires v < Pow2(s + t)
    ensures Shr(v, s) < Pow2(t)
  {
    if s > 0 {
      ShrBelow(v / 2, s - 1, t);
    }
  }

  /** A number below 2^(2s-1) goes through a step of bitLength with
      threshold 2^(s-1) - 1 to below 2^(s-1), keeping count plus length. */
  lemma {:induction false} Stage(p: (nat, nat), threshold: nat, s: nat)
    requires s >= 1 && threshold + 1 == Pow2(s - 1) && p.0 < Pow2(2 * s - 1)
    ensures Squeeze(p, threshold, s).0 < Pow2(s - 1)
    ensures Squeeze(p, threshold, s).1 + BitLength(Squeeze(p, threshold, s).0) == p.1 + BitLength(p.0)
  {
    var v := p.0;
    if v > threshold {
      BitLengthShift(v, s);
      ShrBelow(v, s, s - 1);
    }
  }

  lemma SmallPowers()
    ensures Pow2(1) == 2 && Pow2(3) == 8 && Pow2(7) == 0x80 && Pow2(15) == 0x8000
    ensures Pow2(31) == 0x8000_0000
  {
    Pow2Of32();
  }

  /** The steps of bitLength with their constants. */
  lemma {:induction false} Stage16(p: (nat, nat))
    requires p.0 < 0x8000_0000
    ensures Squeeze(p, 0x7FFF, 16).0 < 0x8000
    ensures Squeeze(p, 0x7FFF, 16).1 + BitLength(Squeeze(p, 0x7FFF, 16).0) == p.1 + BitLength(p.0)
  {
    SmallPowers();
    Stage(p, 0x7FFF, 16);
  }

  lemma {:induction false} Stage8(p: (nat, nat))
    requires p.0 < 0x8000
    ensures Squeeze(p, 0x7F, 8).0 < 0x80
    ensures Squeeze(p, 0x7F, 8).1 + BitLength(Squeeze(p, 0x7F, 8).0) == p.1 + BitLength(p.0)
  {
    SmallPowers();
    Stage(p, 0x7F, 8);
  }

  lemma {:induction false} Stage4(p: (nat, nat))
    requires p.0 < 0x80
    ensures Squeeze(p, 0x7, 4).0 < 8
    ensures Squeeze(p, 0x7, 4).1 + BitLength(Squeeze(p, 0x7, 4).0) == p.1 + BitLength(p.0)
  {
    SmallPowers();
    Stage(p, 0x7, 4);
  }

  lemma {:induction false} Stage2(p: (nat, nat))
    requires p.0 < 8
    ensures Squeeze(p, 0x1, 2).0 < 2
    ensures Squeeze(p, 0x1, 2).1 + BitLength(Squeeze(p, 0x1, 2).0) == p.1 + BitLength(p.0)
  {
    SmallPowers();
    Stage(p, 0x1, 2);
  }

  /** bitLength is the binary length of every value below 2^31. */
  lemma {:induction false} BitLengthAsWrittenBelow2To31(value: nat)
    requires value < 0x8000_0000
    ensures BitLengthAsWritten(value) == BitLength(value)
  {
    var p0 := (value, 0);
    var p1 := Squeeze(p0, 0x7FFF, 16);
    Stage16(p0);
    var p2 := Squeeze(p1, 0x7F, 8);
    Stage8(p1);
    var p3 := Squeeze(p2, 0x7, 4);
    Stage4(p2);
    Stage2(p3);
  }

  lemma {:induction false} ShrPow2(a: nat, b: nat)
    ensures Shr(Pow2(a + b), a) == Pow2(b)
  {
    if a > 0 {
      assert Pow2(a + b) / 2 == Pow2(a - 1 + b);
      ShrPow2(a - 1, b);
    }
  }

  lemma ShiftsOf2To31()
    ensures Shr(0x8000_0000, 16) == 0x8000 && Shr(0x8000, 8) == 0x80
    ensures Shr(0x80, 4) == 8 && Shr(8, 2) == 2
  {
    SmallPowers();
    ShrPow2(16, 15);
    ShrPow2(8, 7);
    ShrPow2(4, 3);
    ShrPow2(2, 1);
  }

  /** 2^31 is 32 digits long... */
  lemma BitLengthOf2To31()
    ensures BitLength(0x8000_0000) == 32
  {
    SmallPowers();
    Pow2Of32();
    BitLengthUnique(0x8000_0000, 32);
  }

  /** ...but bitLength gives 31. */
  lemma BitLengthAsWrittenAt2To31()
    ensures BitLengthAsWritten(0x8000_0000) == 31
  {
    ShiftsOf2To31();
    var p1 := Squeeze((0x8000_0000, 0), 0x7FFF, 16);
    assert p1 == (0x8000, 16);
    var p2 := Squeeze(p1, 0x7F, 8);
    assert p2 == (0x80, 24);
    var p3 := Squeeze(p2, 0x7, 4);
    assert p3 == (8, 28);
    var p4 := Squeeze(p3, 0x1, 2);
    assert p4 == (2, 30);
  }

  // ---------------------------------------------------------------------------
  // The codes writer.cpp emits

  /** BI: x in n bins, most significant first. */
  function BIBins(x: nat, n: nat, run: Run): seq<Bin>
  {
    Coded(BitsOf(x, n), run)
  }

  /** TU: x ones, closed by a zero unless x is cMax. */
  function TUCode(x: nat, cMax: nat): (r: seq<bool>)
    ensures |r| == if x == cMax then x else x + 1
  {
    Copies(true, x) + (if x == cMax then [] else [false])
  }

  function TUBins(x: nat, cMax: nat, run: Run): seq<Bin>
  {
    Coded(TUCode(x, cMax), run)
  }

  /** EG: with v = x + 1 of bit length L, L - 1 zeros, a one, and the low
      L - 1 bits of v. */
  function EGCode(x: nat): (r: seq<bool>)
    ensures |r| == 2 * BitLength(x + 1) - 1
  {
    BitsOf(x + 1, 2 * BitLength(x + 1) - 1)
  }

  /** The prefix of EG in the run's contexts, the suffix bypass-coded. */
  function EGBins(x: nat, run: Run): (r: seq<Bin>)
    ensures |r| == |EGCode(x)|
  {
    var n := BitLength(x + 1) - 1;
    Coded(Copies(false, n) + [true], run) + Coded(BitsOf(x + 1 - Pow2(n), n), EP)
  }

  /** EGBins bin by bin: n zeros and a one in the run, n bits bypass, with
      n + 1 the bit length of x + 1. */
  lemma {:induction false} EGBinsSplit(x: nat, n: nat, run: Run)
    requires BitLength(x + 1) == n + 1
    ensures EGBins(x, run) == Coded(Copies(false, n), run) + [Bin(true, CtxAt(run, n))]
                              + Coded(BitsOf(x + 1 - Pow2(n), n), EP)
  {
    CodedSnoc(Copies(false, n), true, run);
  }

  lemma {:induction false} ValuesEGBins(x: nat, run: Run)
    ensures Values(EGBins(x, run)) == EGCode(x)
  {
    var n := BitLength(x + 1) - 1;
    var prefix := Copies(false, n) + [true];
    var suffix := BitsOf(x + 1 - Pow2(n), n);
    EGCodeAt(x, n);
    ValuesAppend(Coded(prefix, run), Coded(suffix, EP));
    ValuesCoded(prefix, run);
    ValuesCoded(suffix, EP);
  }

  /** A value of 32-bit unsigned arithmetic. */
  function Wrap32(x: int): U32
  {
    x % TWO_32
  }

  /** writeAsSEG*: v <= 0 becomes -2v and v > 0 becomes 2v - 1, computed in
      32-bit unsigned arithmetic. */
  function SegMap(v: int): nat
  {
    if v <= 0 then Wrap32(Wrap32(-v) * 2) else Wrap32(Wrap32(2 * v) - 1)
  }

  /** readAsSEG*: an even t is -(t / 2), an odd t is (t + 1) / 2. */
  function SegUnmap(t: nat): int
  {
    if t % 2 == 0 then (if t == 0 then 0 else -(t / 2)) else (t + 1) / 2
  }

  /** The range SEG accepts: [INT32_MIN / 2, INT32_MAX / 2]. */
  predicate InSegRange(v: int)
  {
    INT32_MIN / 2 <= v <= INT32_MAX / 2
  }

  /** In SEG's range the 32-bit arithmetic does not wrap. */
  lemma {:induction false} SegMapExact(v: int)
    requires InSegRange(v)
    ensures SegMap(v) == if v <= 0 then -2 * v else 2 * v - 1
    ensures SegMap(v) <= 0x8000_0000
  {
  }

  /** readAsSEG* inverts writeAsSEG* on SEG's range... */
  lemma {:induction false} SegRoundTrip(v: int)
    requires InSegRange(v)
    ensures SegUnmap(SegMap(v)) == v
  {
    SegMapExact(v);
  }

  /** ...and every EG value read back into that range is the writer's
      mapping of what it is read as. */
  lemma {:induction false} SegUnmapRoundTrip(t: nat)
    requires InSegRange(SegUnmap(t))
    ensures SegMap(SegUnmap(t)) == t
  {
    SegMapExact(SegUnmap(t));
  }

  function SEGBins(v: int, run: Run): seq<Bin>
  {
    EGBins(SegMap(v), run)
  }

  /** TEG: below p, TU; from p on, TU of p and EG of the rest. */
  function TEGBins(x: nat, p: nat, tu: Run, eg: Run): seq<Bin>
  {
    if x < p then TUBins(x, p, tu) else TUBins(p, p, tu) + EGBins(x - p, eg)
  }

  function TEGCode(x: nat, p: nat): seq<bool>
  {
    if x < p then TUCode(x, p) else TUCode(p, p) + EGCode(x - p)
  }

  /** STEG: TEG of the magnitude, then a sign bin (1 negative, 0 positive,
      none for zero). */
  function STEGBins(v: int, p: nat, tu: Run, eg: Run, bi: Run): seq<Bin>
  {
    if v < 0 then TEGBins(-v, p, tu, eg) + BIBins(1, 1, bi)
    else if v > 0 then TEGBins(v, p, tu, eg) + BIBins(0, 1, bi)
    else TEGBins(0, p, tu, eg)
  }

  function STEGCode(v: int, p: nat): seq<bool>
  {
    if v < 0 then TEGCode(-v, p) + [true]
    else if v > 0 then TEGCode(v, p) + [false]
    else TEGCode(0, p)
  }

  lemma {:induction false} ValuesTEGBins(x: nat, p: nat, tu: Run, eg: Run)
    ensures Values(TEGBins(x, p, tu, eg)) == TEGCode(x, p)
  {
    ValuesCoded(TUCode(if x < p then x else p, p), tu);
    if x >= p {
      ValuesAppend(TUBins(p, p, tu), EGBins(x - p, eg));
      ValuesEGBins(x - p, eg);
    }
  }

  lemma {:induction false} ValuesSTEGBins(v: int, p: nat, tu: Run, eg: Run, bi: Run)
    ensures Values(STEGBins(v, p, tu, eg, bi)) == STEGCode(v, p)
  {
    var m := if v < 0 then -v else v;
    ValuesTEGBins(m, p, tu, eg);
    if v != 0 {
      var sign := BIBins(if v < 0 then 1 else 0, 1, bi);
      ValuesAppend(TEGBins(m, p, tu, eg), sign);
      ValuesCoded(BitsOf(if v < 0 then 1 else 0, 1), bi);
    }
  }

  // ---------------------------------------------------------------------------
  // The decoders reader.cpp runs, on bin values: the value and the number of
  // bins read, or None when the bins run out

  function ReadBI(s: seq<bool>, n: nat): (r: Option<(nat, nat)>)
    ensures r.Some? ==> r.value.1 <= |s|
  {
    if |s| < n then None else Some((Value(s[..n]), n))
  }

  /** TU: ones are counted up to cMax; a zero ends the count early. */
  function ReadTU(s: seq<bool>, cMax: nat): (r: Option<(nat, nat)>)
    ensures r.Some? ==> r.value.1 <= |s| && r.value.0 <= cMax
    decreases cMax
  {
    if cMax == 0 then Some((0, 0))
    else if s == [] then None
    else if !s[0] then Some((0, 1))
    else match ReadTU(s[1..], cMax - 1)
      case None => None
      case Some(t) => Some((t.0 + 1, t.1 + 1))
  }

  function LeadingZeros(s: seq<bool>): (r: nat)
    ensures r <= |s|
  {
    if s == [] || s[0] then 0 else 1 + LeadingZeros(s[1..])
  }

  /** EG: i zeros, a one, then i bits b give (2^i | b) - 1. */
  function ReadEG(s: seq<bool>): (r: Option<(nat, nat)>)
    ensures r.Some? ==> r.value.1 <= |s|
  {
    var i := LeadingZeros(s);
    if |s| < 2 * i + 1 then None
    else Some((Pow2(i) + Value(s[i + 1..2 * i + 1]) - 1, 2 * i + 1))
  }

  function ReadSEG(s: seq<bool>): (r: Option<(int, nat)>)
    ensures r.Some? ==> r.value.1 <= |s|
  {
    match ReadEG(s)
    case None => None
    case Some(t) => Some((SegUnmap(t.0), t.1))
  }

  /** TEG: TU up to p, and an EG remainder when TU reached p. */
  function ReadTEG(s: seq<bool>, p: nat): (r: Option<(nat, nat)>)
    ensures r.Some? ==> r.value.1 <= |s|
  {
    match ReadTU(s, p)
    case None => None
    case Some(t) =>
      if t.0 != p then Some(t)
      else match ReadEG(s[t.1..])
        case None => None
        case Some(e) => Some((t.0 + e.0, t.1 + e.1))
  }

  /** STEG: TEG, then a sign bin only when the magnitude is not zero. */
  function ReadSTEG(s: seq<bool>, p: nat): (r: Option<(int, nat)>)
    ensures r.Some? ==> r.value.1 <= |s|
  {
    match ReadTEG(s, p)
    case None => None
    case Some(t) =>
      if t.0 == 0 then Some((0, t.1))
      else if |s| <= t.1 then None
      else
        var magnitude: int := t.0;
        Some((if s[t.1] then -magnitude else magnitude, t.1 + 1))
  }

  // ---------------------------------------------------------------------------
  // Every decoder reads back what the writer wrote, and nothing more

  lemma {:induction false} ReadBIRoundTrip(x: nat, n: nat, rest: seq<bool>)
    requires x < Pow2(n)
    ensures ReadBI(BitsOf(x, n) + rest, n) == Some((x, n))
  {
    assert (BitsOf(x, n) + rest)[..n] == BitsOf(x, n);
    ValueOfBitsOf(x, n);
  }

  lemma {:induction false} ReadTURoundTrip(x: nat, cMax: nat, rest: seq<bool>)
    requires x <= cMax
    ensures ReadTU(TUCode(x, cMax) + rest, cMax) == Some((x, |TUCode(x, cMax)|))
  {
    var s := TUCode(x, cMax) + rest;
    if x > 0 {
      assert s[1..] == TUCode(x - 1, cMax - 1) + rest;
      ReadTURoundTrip(x - 1, cMax - 1, rest);
    } else if cMax > 0 {
      assert s[0] == false;
    }
  }

  lemma {:induction false} LeadingZerosOfCode(k: nat, t: seq<bool>)
    ensures LeadingZeros(Copies(false, k) + [true] + t) == k
  {
    if k > 0 {
      assert (Copies(false, k) + [true] + t)[1..] == Copies(false, k - 1) + [true] + t;
      LeadingZerosOfCode(k - 1, t);
    }
  }

  lemma {:induction false} ReadEGRoundTrip(x: nat, rest: seq<bool>)
    ensures ReadEG(EGCode(x) + rest) == Some((x, |EGCode(x)|))
  {
    var n := BitLength(x + 1) - 1;
    EGCodeAt(x, n);
    ValueOfBitsOf(x + 1 - Pow2(n), n);
    ReadEGOfParts(EGCode(x), BitsOf(x + 1 - Pow2(n), n), rest, n, x);
  }

  /** EG reads x back from n zeros, a one and the n bits of x + 1 - 2^n. */
  lemma {:induction false} ReadEGOfParts(code: seq<bool>, bits: seq<bool>, rest: seq<bool>, n: nat, x: nat)
    requires code == Copies(false, n) + [true] + bits && |bits| == n
    requires Value(bits) == x + 1 - Pow2(n)
    ensures ReadEG(code + rest) == Some((x, |code|))
  {
    ReadEGOfCode(n, bits + rest);
    assert code + rest == Copies(false, n) + [true] + (bits + rest);
    assert (bits + rest)[..n] == bits;
  }

  lemma {:induction false} SEGRoundTrip(v: int, run: Run, rest: seq<bool>)
    requires InSegRange(v)
    ensures ReadSEG(Values(SEGBins(v, run)) + rest) == Some((v, |SEGBins(v, run)|))
  {
    ValuesEGBins(SegMap(v), run);
    ReadEGRoundTrip(SegMap(v), rest);
    SegRoundTrip(v);
  }

  lemma {:induction false} TEGRoundTrip(x: nat, p: nat, rest: seq<bool>)
    ensures ReadTEG(TEGCode(x, p) + rest, p) == Some((x, |TEGCode(x, p)|))
  {
    if x < p {
      ReadTURoundTrip(x, p, rest);
    } else {
      TEGCodeAbove(x, p);
      ReadTURoundTrip(p, p, EGCode(x - p) + rest);
      ReadEGRoundTrip(x - p, rest);
      ReadTEGAbove(x, p, rest);
    }
  }

  /** From p on, the TEG code is the TU code of p and the EG code of the rest. */
  lemma {:induction false} TEGCodeAbove(x: nat, p: nat)
    requires x >= p
    ensures TEGCode(x, p) == TUCode(p, p) + EGCode(x - p) && |TUCode(p, p)| == p
  {
  }

  /** TEG reads x from p on: TU reads p, then EG reads the rest. */
  lemma {:induction false} ReadTEGAbove(x: nat, p: nat, rest: seq<bool>)
    requires x >= p
    requires TEGCode(x, p) == TUCode(p, p) + EGCode(x - p) && |TUCode(p, p)| == p
    requires ReadTU(TUCode(p, p) + (EGCode(x - p) + rest), p) == Some((p, |TUCode(p, p)|))
    requires ReadEG(EGCode(x - p) + rest) == Some((x - p, |EGCode(x - p)|))
    ensures ReadTEG(TEGCode(x, p) + rest, p) == Some((x, |TEGCode(x, p)|))
  {
    var tu := TUCode(p, p);
    var eg := EGCode(x - p);
    assert TEGCode(x, p) + rest == tu + (eg + rest);
    assert (tu + (eg + rest))[p..] == eg + rest;
  }

  lemma {:induction false} STEGRoundTrip(v: int, p: nat, rest: seq<bool>)
    ensures ReadSTEG(STEGCode(v, p) + rest, p) == Some((v, |STEGCode(v, p)|))
  {
    var m := if v < 0 then -v else v;
    if v == 0 {
      TEGRoundTrip(0, p, rest);
    } else {
      var sign := if v < 0 then [true] else [false];
      assert STEGCode(v, p) + rest == TEGCode(m, p) + (sign + rest);
      TEGRoundTrip(m, p, sign + rest);
    }
  }

  lemma {:induction false} ReadTUExact(s: seq<bool>, cMax: nat)
    requires ReadTU(s, cMax).Some?
    ensures ReadTU(s, cMax).value.0 <= cMax
    ensures s[..ReadTU(s, cMax).value.1] == TUCode(ReadTU(s, cMax).value.0, cMax)
    decreases cMax
  {
    if cMax > 0 && s[0] {
      ReadTUExact(s[1..], cMax - 1);
      var t := ReadTU(s[1..], cMax - 1).value;
      assert s[..t.1 + 1] == [true] + s[1..][..t.1];
      assert TUCode(t.0 + 1, cMax) == [true] + TUCode(t.0, cMax - 1);
    } else if cMax > 0 {
      assert s[..1] == [false];
    }
  }

  lemma {:induction false} LeadingZerosSpec(s: seq<bool>)
    ensures s[..LeadingZeros(s)] == Copies(false, LeadingZeros(s))
    ensures LeadingZeros(s) < |s| ==> s[LeadingZeros(s)]
  {
    if s != [] && !s[0] {
      LeadingZerosSpec(s[1..]);
      assert s[..LeadingZeros(s)] == [false] + s[1..][..LeadingZeros(s[1..])];
    }
  }

  /** EG's definition, with the bit length already known. */
  lemma {:induction false} EGCodeAt(x: nat, n: nat)
    requires BitLength(x + 1) == n + 1
    ensures EGCode(x) == Copies(false, n) + [true] + BitsOf(x + 1 - Pow2(n), n)
  {
    var w := x + 1 - Pow2(n);
    assert Pow2(n + 1) == 2 * Pow2(n);
    ShlOne(n);
    BitsOfConcat(1, w, n + 1, n, 2 * n + 1);
    BitsOfZero(n);
  }

  /** i zeros, a one and the i bits of v are the EG code of 2^i + v - 1. */
  lemma {:induction false} EGCodeOfValue(i: nat, v: nat)
    requires v < Pow2(i)
    ensures EGCode(Pow2(i) + v - 1) == Copies(false, i) + [true] + BitsOf(v, i)
  {
    var x: nat := Pow2(i) + v - 1;
    assert Pow2(i + 1) == 2 * Pow2(i);
    BitLengthUnique(x + 1, i + 1);
    EGCodeAt(x, i);
  }

  /** i zeros, a one and i bits are the EG code of (2^i | bits) - 1. */
  lemma {:induction false} EGCodeOf(i: nat, bits: seq<bool>)
    requires |bits| == i
    ensures EGCode(Pow2(i) + Value(bits) - 1) == Copies(false, i) + [true] + bits
  {
    BitsOfValue(bits);
    EGCodeOfValue(i, Value(bits));
  }

  lemma {:induction false} ReadEGExact(s: seq<bool>)
    requires ReadEG(s).Some?
    ensures s[..ReadEG(s).value.1] == EGCode(ReadEG(s).value.0)
  {
    ReadEGExactOf(s, ReadEG(s).value.0, ReadEG(s).value.1);
  }




  /** ReadEGExact for the x and k ReadEG returns. */
  lemma {:induction false} ReadEGExactOf(s: seq<bool>, x: nat, k: nat)
    requires ReadEG(s) == Some((x, k))
    ensures k <= |s| && s[..k] == EGCode(x)
  {
    var i := LeadingZeros(s);
    ReadEGUnfold(s, x, k);
    LeadingZerosSpec(s);
    EGPrefixOfParts(s, i, s[i + 1..k], x);
  }

  /** What ReadEG returns when it succeeds. */
  lemma {:induction false} ReadEGUnfold(s: seq<bool>, x: nat, k: nat)
    requires ReadEG(s) == Some((x, k))
    ensures k == 2 * LeadingZeros(s) + 1 && k <= |s|
    ensures x == Pow2(LeadingZeros(s)) + Value(s[LeadingZeros(s) + 1..k]) - 1
  {
  }

  /** A sequence that starts with i zeros, a one and i bits starts with
      the EG code those spell. */
  lemma {:induction false} EGPrefixOfParts(s: seq<bool>, i: nat, bits: seq<bool>, x: nat)
    requires 2 * i + 1 <= |s| && bits == s[i + 1..2 * i + 1]
    requires s[..i] == Copies(false, i) && s[i]
    requires x == Pow2(i) + Value(bits) - 1
    ensures s[..2 * i + 1] == EGCode(x)
  {
    EGCodeOf(i, bits);
    assert s[..2 * i + 1] == s[..i] + [s[i]] + bits;
  }

  /** EG reads k zeros, the one after them and k bits more. */
  lemma {:induction false} ReadEGOfCode(k: nat, t: seq<bool>)
    requires |t| >= k
    ensures ReadEG(Copies(false, k) + [true] + t) == Some((Pow2(k) + Value(t[..k]) - 1, 2 * k + 1))
  {
    var s := Copies(false, k) + [true] + t;
    LeadingZerosOfCode(k, t);
    assert s[k + 1..2 * k + 1] == t[..k];
  }

  lemma {:induction false} ReadSEGExact(s: seq<bool>, run: Run)
    requires ReadSEG(s).Some? && InSegRange(ReadSEG(s).value.0)
    ensures s[..ReadSEG(s).value.1] == Values(SEGBins(ReadSEG(s).value.0, run))
  {
    ReadEGExact(s);
    SegUnmapRoundTrip(ReadEG(s).value.0);
    ValuesEGBins(ReadEG(s).value.0, run);
  }

  lemma {:induction false} ReadTEGExact(s: seq<bool>, p: nat)
    requires ReadTEG(s, p).Some?
    ensures s[..ReadTEG(s, p).value.1] == TEGCode(ReadTEG(s, p).value.0, p)
  {
    ReadTUExact(s, p);
    var t := ReadTU(s, p).value;
    if t.0 == p {
      var e := ReadEG(s[t.1..]).value;
      ReadEGExact(s[t.1..]);
      assert s[..t.1 + e.1] == s[..t.1] + s[t.1..][..e.1];
    }
  }

  lemma {:induction false} ReadSTEGExact(s: seq<bool>, p: nat)
    requires ReadSTEG(s, p).Some?
    ensures s[..ReadSTEG(s, p).value.1] == STEGCode(ReadSTEG(s, p).value.0, p)
  {
    ReadTEGExact(s, p);
    ReadSTEGExactOf(s, p, ReadTEG(s, p).value.0, ReadTEG(s, p).value.1);
  }

  /** ReadSTEGExact once TEG has read m in k bins. */
  lemma {:induction false} ReadSTEGExactOf(s: seq<bool>, p: nat, m: nat, k: nat)
    requires ReadTEG(s, p) == Some((m, k)) && ReadSTEG(s, p).Some?
    requires s[..k] == TEGCode(m, p)
    ensures s[..ReadSTEG(s, p).value.1] == STEGCode(ReadSTEG(s, p).value.0, p)
  {
    if m != 0 {
      STEGPrefixOfParts(s, p, m, k);
    }
  }

  /** A TEG code of m > 0 and a sign bin start the STEG code of +m or -m. */
  lemma {:induction false} STEGPrefixOfParts(s: seq<bool>, p: nat, m: nat, k: nat)
    requires 0 < m && k < |s| && s[..k] == TEGCode(m, p)
    ensures s[..k + 1] == STEGCode(if s[k] then -(m as int) else m, p)
  {
    assert s[..k + 1] == s[..k] + [s[k]];
  }

  // ---------------------------------------------------------------------------
  // As written: EG lengths from bitLength, and TU reading before it tests cMax

  lemma {:induction false} BitsOfZero(n: nat)
    ensures BitsOf(0, n) == Copies(false, n)
  {
    if n > 0 {
      BitsOfZero(n - 1);
    }
  }

  lemma {:induction false} ShlOne(n: nat)
    ensures Shl(1, n) == Pow2(n)
  {
    if n > 0 {
      ShlOne(n - 1);
    }
  }

  /** 2^k in n > k bits: a one with n - 1 - k zeros before it and k after. */
  lemma {:induction false} BitsOfPow2(k: nat, n: nat)
    requires k < n
    ensures BitsOf(Pow2(k), n) == Copies(false, n - 1 - k) + [true] + Copies(false, k)
  {
    ShlOne(k);
    BitsOfConcat(1, 0, n - k, k, n);
    BitsOfZero(k);
    BitsOfZero(n - k - 1);
  }

  lemma {:induction false} EGBinsBypass(x: nat)
    ensures EGBins(x, EP) == Coded(EGCode(x), EP)
  {
    var n := BitLength(x + 1) - 1;
    EGCodeAt(x, n);
    CodedAppendEP(Copies(false, n) + [true], BitsOf(x + 1 - Pow2(n), n));
  }

  /** writeAsEGbypass as written: 2 * (bitLength(x + 1) - 1) + 1 bins of x + 1. */
  function EGBinsAsWritten(x: nat): seq<Bin>
  {
    BitLengthAsWrittenPositive(x + 1);
    Coded(BitsOf(x + 1, 2 * (BitLengthAsWritten(x + 1) - 1) + 1), EP)
  }

  lemma {:induction false} BitLengthAsWrittenPositive(value: nat)
    requires value > 0
    ensures BitLengthAsWritten(value) > 0
  {
  }

  /** Below 2^31 - 1 the as-written EG is the EG code... */
  lemma {:induction false} EGAsWrittenBelow2To31(x: nat)
    requires x + 1 < 0x8000_0000
    ensures EGBinsAsWritten(x) == EGBins(x, EP)
  {
    BitLengthAsWrittenBelow2To31(x + 1);
    EGBinsBypass(x);
  }

  lemma {:induction false} ValueOfZeros(n: nat)
    ensures Value(Copies(false, n)) == 0
  {
    BitsOfZero(n);
    ValueOfBitsOf(0, n);
  }

  lemma EGAsWrittenInt32MaxBins()
    ensures Values(EGBinsAsWritten(INT32_MAX)) == Copies(false, 29) + [true] + Copies(false, 31)
  {
    BitLengthAsWrittenAt2To31();
    SmallPowers();
    ValuesCoded(BitsOf(Pow2(31), 61), EP);
    BitsOfPow2(31, 61);
  }

  lemma Pow2Of29()
    ensures Pow2(29) == 0x2000_0000
  {
    SmallPowers();
    assert Pow2(31) == 4 * Pow2(29);
  }

  /** ...but for INT32_MAX, the largest value EG accepts, the 61 bins it
      writes are read back as 2^29 - 1 after 59 of them. */
  lemma EGAsWrittenMisreadsInt32Max()
    ensures ReadEG(Values(EGBinsAsWritten(INT32_MAX))) == Some((0x1FFF_FFFF, 59))
  {
    var t := Copies(false, 31);
    assert ReadEG(Copies(false, 29) + [true] + t) == Some((0x1FFF_FFFF, 59)) by {
      ReadEGOfCode(29, t);
      assert t[..29] == Copies(false, 29);
      ValueOfZeros(29);
      Pow2Of29();
    }
    EGAsWrittenInt32MaxBins();
  }

  /** readAsTU* as written, with i ones read: a bin is read before the count
      is compared with cMax, so cMax = 0 reads a bin and counts on. */
  function ReadTUFrom(s: seq<bool>, cMax: nat, i: nat): (r: Option<(nat, nat)>)
    ensures r.Some? ==> r.value.1 <= |s|
  {
    if s == [] then None
    else if !s[0] then Some((i, 1))
    else if i + 1 == cMax then Some((i + 1, 1))
    else match ReadTUFrom(s[1..], cMax, i + 1)
      case None => None
      case Some(t) => Some((t.0, t.1 + 1))
  }

  function ReadTUAsWritten(s: seq<bool>, cMax: nat): (r: Option<(nat, nat)>)
    ensures r.Some? ==> r.value.1 <= |s|
  {
    ReadTUFrom(s, cMax, 0)
  }

  lemma {:induction false} ReadTUFromAgrees(s: seq<bool>, cMax: nat, i: nat)
    requires i < cMax
    ensures ReadTUFrom(s, cMax, i).Some? == ReadTU(s, cMax - i).Some?
    ensures ReadTU(s, cMax - i).Some? ==>
      ReadTUFrom(s, cMax, i).value.0 == i + ReadTU(s, cMax - i).value.0 &&
      ReadTUFrom(s, cMax, i).value.1 == ReadTU(s, cMax - i).value.1
  {
    if s != [] && s[0] && i + 1 < cMax {
      ReadTUFromAgrees(s[1..], cMax, i + 1);
    }
  }

  /** With cMax >= 1 the as-written reader is ReadTU... */
  lemma {:induction false} ReadTUAsWrittenAgrees(s: seq<bool>, cMax: nat)
    requires cMax >= 1
    ensures ReadTUAsWritten(s, cMax) == ReadTU(s, cMax)
  {
    ReadTUFromAgrees(s, cMax, 0);
  }

  /** readAsTEG* as written. */
  function ReadTEGAsWritten(s: seq<bool>, p: nat): Option<(nat, nat)>
  {
    match ReadTUAsWritten(s, p)
    case None => None
    case Some(t) =>
      if t.0 != p then Some(t)
      else match ReadEG(s[t.1..])
        case None => None
        case Some(e) => Some((t.0 + e.0, t.1 + e.1))
  }

  lemma EGCodeOfOne()
    ensures EGCode(1) == [false, true, false]
  {
    EGCodeOf(1, [false]);
    assert Value([false]) == 0;
  }

  lemma TEGCodeOneZero()
    ensures TEGCode(1, 0) == [false, true, false]
  {
    EGCodeOfOne();
    assert TUCode(0, 0) == [];
  }

  lemma ReadTEGOneZero()
    ensures ReadTEG([false, true, false], 0) == Some((1, 3))
  {
    var s := [false, true, false];
    ReadEGOfCode(1, [false]);
    assert s == Copies(false, 1) + [true] + [false];
    assert s[0..] == s;
    assert Value([false]) == 0;
  }

  lemma ReadTEGAsWrittenOneZero()
    ensures ReadTEGAsWritten([false, true, false], 0) == Some((0, 2))
  {
    var s := [false, true, false];
    assert ReadTUAsWritten(s, 0) == Some((0, 1));
    ReadEGOfCode(0, [false]);
    assert s[1..] == Copies(false, 0) + [true] + [false];
  }

  /** ...but TEG with parameter 0, which TEG's parameter range allows,
      writes 1 as the three bins 0, 1, 0; the as-written reader takes the
      first for TU and returns 0 after two bins. */
  lemma TEGZeroAsWrittenMisreads()
    ensures TEGCode(1, 0) == [false, true, false]
    ensures ReadTEG(TEGCode(1, 0), 0) == Some((1, 3))
    ensures ReadTEGAsWritten(TEGCode(1, 0), 0) == Some((0, 2))
  {
    TEGCodeOneZero();
    ReadTEGOneZero();
    ReadTEGAsWrittenOneZero();
  }
}
