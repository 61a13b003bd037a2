// The constant tables of constants.cpp: the value range every binarization
// accepts for a parameter, the output streams of every sequence
// transformation, and fixWordSizes.
module Constants {
  import opened Bytes

  datatype Binarization = BI | TU | EG | SEG | TEG | STEG

  /** Binarizations without a sign bin. */
  predicate Unsigned(b: Binarization)
  {
    b == BI || b == TU || b == EG || b == TEG
  }

  /** paramMin and paramMax of binarizationInformation. */
  function ParamMin(b: Binarization): int
  {
    match b
    case BI => 1
    case TU => 1
    case _ => 0
  }

  function ParamMax(b: Binarization): int
  {
    match b
    case BI => 32
    case TU => 32
    case EG => 0
    case SEG => 0
    case TEG => 255
    case STEG => 255
  }

  /** `1ull << parameter` is undefined from 64 on. */
  predicate BorderDefined(b: Binarization, parameter: U64)
  {
    b == BI ==> parameter < 64
  }

  /** The min border: an int64_t computed from the uint64_t parameter with
      the C++ conversions (STEG's subtraction is done in uint64_t). */
  function Lower(b: Binarization, parameter: U64): I64
  {
    match b
    case SEG => INT32_MIN / 2
    case STEG => Signed64(Wrap64(INT32_MIN / 2 - parameter))
    case _ => 0
  }

  /** The max border, with the same conversions. */
  function Upper(b: Binarization, parameter: U64): I64
    requires BorderDefined(b, parameter)
  {
    match b
    case BI => Pow2Bound(parameter); Signed64(Pow2(parameter) - 1)
    case TU => Signed64(parameter)
    case EG => INT32_MAX
    case SEG => INT32_MAX / 2
    case TEG => Signed64(Wrap64(INT32_MAX + parameter))
    case STEG => Signed64(Wrap64(INT32_MAX / 2 + parameter))
  }

  /** BinarizationProperties::sbCheck. */
  predicate SbCheck(b: Binarization, minv: I64, maxv: I64, parameter: U64)
    requires BorderDefined(b, parameter)
  {
    minv >= Lower(b, parameter) && maxv <= Upper(b, parameter)
  }

  /** The accepted ranges, for every parameter small enough that none of
      the conversions wraps (all of 0..255 and more). */
  lemma AcceptedRanges(minv: I64, maxv: I64, p: U64)
    requires p < 0x1_0000_0000
    ensures p < 64 ==> (SbCheck(BI, minv, maxv, p) <==> 0 <= minv && maxv <= Pow2(p) - 1)
    ensures SbCheck(TU, minv, maxv, p) <==> 0 <= minv && maxv <= p
    ensures SbCheck(EG, minv, maxv, p) <==> 0 <= minv && maxv <= 0x7FFF_FFFF
    ensures SbCheck(SEG, minv, maxv, p) <==> -0x4000_0000 <= minv && maxv <= 0x3FFF_FFFF
    ensures SbCheck(TEG, minv, maxv, p) <==> 0 <= minv && maxv <= 0x7FFF_FFFF + p
    ensures SbCheck(STEG, minv, maxv, p) <==> -0x4000_0000 - p <= minv && maxv <= 0x3FFF_FFFF + p
  {
    if p < 64 {
      Pow2Bound(p);
    }
    ModSmall(INT32_MAX + p, TWO_64);
    ModSmall(INT32_MAX / 2 + p, TWO_64);
    ModAddMultiple(INT32_MIN / 2 - p, TWO_64, 1);
    ModSmall(TWO_64 + INT32_MIN / 2 - p, TWO_64);
  }

  /** Unsigned binarizations accept no negative value: their min border is 0. */
  lemma UnsignedAcceptsOnlyNatural(b: Binarization, minv: I64, maxv: I64, p: U64)
    requires Unsigned(b) && BorderDefined(b, p) && SbCheck(b, minv, maxv, p)
    ensures minv >= 0
  {
  }

  /** A wider range passing the check implies every narrower one does. */
  lemma SbCheckNarrower(b: Binarization, minv: I64, maxv: I64, minv': I64, maxv': I64, p: U64)
    requires BorderDefined(b, p) && SbCheck(b, minv, maxv, p) && minv <= minv' && maxv' <= maxv
    ensures SbCheck(b, minv', maxv', p)
  {
  }

  // ---------------------------------------------------------------------------
  // transformationInformation

  datatype Transformation = NoTransform | EqualityCoding | MatchCoding | RleCoding | LutCoding | DiffCoding

  /** The names of a transformation's output streams. */
  function StreamNames(t: Transformation): seq<string>
  {
    match t
    case NoTransform => ["out"]
    case EqualityCoding => ["eq_flags", "raw_symbols"]
    case MatchCoding => ["pointers", "lengths", "raw_values"]
    case RleCoding => ["raw_values", "lengths"]
    case LutCoding => ["sequence", "lut0", "lut1"]
    case DiffCoding => ["sequence"]
  }

  /** Fixed word sizes of the output streams; 0 stands for the word size of
      the input. */
  function WordSizes(t: Transformation): seq<U32>
  {
    match t
    case NoTransform => [0]
    case EqualityCoding => [1, 0]
    case MatchCoding => [4, 4, 0]
    case RleCoding => [0, 4]
    case LutCoding => [0, 0, 0]
    case DiffCoding => [0]
  }

  /** Every transformation names as many streams as it gives word sizes:
      1, 2, 3, 2, 3 and 1 of them. */
  lemma StreamCounts(t: Transformation)
    ensures |StreamNames(t)| == |WordSizes(t)|
    ensures |WordSizes(t)| == match t
                               case NoTransform => 1
                               case EqualityCoding => 2
                               case MatchCoding => 3
                               case RleCoding => 2
                               case LutCoding => 3
                               case DiffCoding => 1
  {
  }

  /** fixWordSizes: a copy of the list with every 0 replaced by wordsize. */
  function FixWordSizes(list: seq<U32>, wordsize: U32): (r: seq<U32>)
    ensures |r| == |list|
    ensures forall i :: 0 <= i < |list| ==> r[i] == if list[i] == 0 then wordsize else list[i]
  {
    if list == [] then []
    else [if list[0] == 0 then wordsize else list[0]] + FixWordSizes(list[1..], wordsize)
  }

  /** With a nonzero word size no 0 remains, so fixing twice changes
      nothing more. */
  lemma FixWordSizesIdempotent(list: seq<U32>, wordsize: U32)
    requires wordsize != 0
    ensures 0 !in FixWordSizes(list, wordsize)
    ensures FixWordSizes(FixWordSizes(list, wordsize), wordsize) == FixWordSizes(list, wordsize)
  {
    var r := FixWordSizes(list, wordsize);
    assert forall i :: 0 <= i < |r| ==> r[i] != 0;
  }
}
