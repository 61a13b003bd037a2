// Machine words and little-endian byte packing shared by every other module.
// Integer widths of the C++ source (uint8_t, uint64_t) are subset types of int;
// wrap-around is written out with `%`.
module Bytes {

  type Byte = x: int | 0 <= x < 0x100

  const TWO_64: nat := 0x1_0000_0000_0000_0000

  type U64 = x: int | 0 <= x < TWO_64

  const TWO_32: nat := 0x1_0000_0000

  type U32 = x: int | 0 <= x < TWO_32

  /** uint64_t arithmetic: reduce modulo 2^64 (Dafny's % is never negative). */
  function Wrap64(x: int): U64
  {
    x % TWO_64
  }

  function Pow2(n: nat): (r: nat)
    ensures r >= 1
  {
    if n == 0 then 1 else 2 * Pow2(n - 1)
  }

  function Pow256(n: nat): (r: nat)
    ensures r >= 1
  {
    if n == 0 then 1 else 256 * Pow256(n - 1)
  }

  lemma Pow2Bound(n: nat)
    requires n < 64
    ensures Pow2(n) <= TWO_63
  {
    var bytes := 8;
    Pow2Pow256(bytes);
    WordModIsPow256(bytes);
    var top := 8 * bytes - 1;
    assert Pow2(top + 1) == 2 * Pow2(top);
    Pow2Monotone(n, top);
  }

  /** Eight bits per byte. */
  lemma {:induction false} Pow2Pow256(k: nat)
    ensures Pow2(8 * k) == Pow256(k)
  {
    if k > 0 {
      Pow2Pow256(k - 1);
      Pow2Add(8 * (k - 1), 8);
      assert Pow2(8) == 0x100;
    }
  }

  lemma {:induction false} Pow2Add(a: nat, b: nat)
    ensures Pow2(a + b) == Pow2(a) * Pow2(b)
  {
    if a > 0 {
      Pow2Add(a - 1, b);
      assert Pow2(a + b) == 2 * Pow2(a - 1 + b);
    }
  }

  lemma {:induction false} Pow2Monotone(a: nat, b: nat)
    requires a <= b
    ensures Pow2(a) <= Pow2(b)
    decreases b - a
  {
    if a < b {
      Pow2Monotone(a + 1, b);
    }
  }

  /** The word sizes a DataBlock knows how to read and write. */
  predicate Known(ws: nat)
  {
    ws == 1 || ws == 2 || ws == 4 || ws == 8
  }

  /** Number of distinct values a word of `ws` bytes holds; an unknown word
      size reads every word as 0, which is arithmetic modulo 1. */
  function WordMod(ws: nat): (m: nat)
    ensures m >= 1
  {
    if ws == 1 then 0x100
    else if ws == 2 then 0x1_0000
    else if ws == 4 then 0x1_0000_0000
    else if ws == 8 then TWO_64
    else 1
  }

  /** The value a static_cast to a `ws`-byte unsigned type leaves. */
  function Trunc(v: int, ws: nat): (r: U64)
    ensures 0 <= r < WordMod(ws)
    ensures 0 <= v < WordMod(ws) ==> r == v
  {
    v % WordMod(ws)
  }

  lemma WordModIsPow256(ws: nat)
    requires Known(ws)
    ensures WordMod(ws) == Pow256(ws)
  {
    assert Pow256(1) == 256;
    assert Pow256(2) == 256 * Pow256(1);
    assert Pow256(4) == 256 * 256 * Pow256(2);
    assert Pow256(8) == 256 * 256 * 256 * 256 * Pow256(4);
  }

  /** A word modulus divides 2^64, so truncating a uint64_t result is
      the same as computing modulo the word modulus directly. */
  lemma WordModDividesTwo64(ws: nat)
    ensures TWO_64 % WordMod(ws) == 0
  {
  }

  lemma TruncWrap(x: int, ws: nat)
    ensures Trunc(Wrap64(x), ws) == Trunc(x, ws)
  {
    var m := WordMod(ws);
    WordModDividesTwo64(ws);
    ModOfMultipleModulus(x, m, TWO_64 / m);
  }

  /** A modulus that divides 2^64: reducing a uint64_t result by it is the
      same as reducing the exact result. Every WordMod is one. */
  predicate DividesTwo64(m: nat)
  {
    m >= 1 && TWO_64 % m == 0
  }

  /** Wrapping an intermediate uint64_t sum does not change the result. */
  lemma WrapAdd(x: int, y: int)
    ensures Wrap64(Wrap64(x) + y) == Wrap64(x + y)
  {
    ModSmall(Wrap64(x), TWO_64);
    ModCongruent(Wrap64(x), x, y, TWO_64);
  }

  /** A running uint64_t sum t of exact value `exact`: adding v keeps it so. */
  lemma WrapStep(t: U64, exact: int, v: int)
    requires t == Wrap64(exact)
    ensures Wrap64(t + v) == Wrap64(exact + v)
  {
    WrapAdd(exact, v);
  }

  lemma ModSmall(x: int, m: nat)
    requires 0 <= x < m
    ensures x % m == x
  {
    DivModUnique(x, m, 0, x);
  }

  /** Values equal modulo m stay equal after adding c. */
  lemma ModCongruent(a: int, b: int, c: int, m: nat)
    requires m >= 1 && a % m == b % m
    ensures (a + c) % m == (b + c) % m
  {
    var r := a % m;
    assert a == m * (a / m) + r;
    assert b == m * (b / m) + r;
    assert a + c == m * (a / m) + (r + c);
    assert b + c == m * (b / m) + (r + c);
    ModAddMultiple(r + c, m, a / m);
    ModAddMultiple(r + c, m, b / m);
  }

  /** (x mod (m*k)) mod m == x mod m */
  lemma ModOfMultipleModulus(x: int, m: nat, k: nat)
    requires m >= 1 && k >= 1
    ensures (x % (m * k)) % m == x % m
  {
    var q := x / (m * k);
    var r := x % (m * k);
    assert x == (m * k) * q + r;
    assert x == m * (k * q) + r;
    ModAddMultiple(r, m, k * q);
  }

  /** Adding a multiple of m does not change a remainder modulo m. */
  lemma ModAddMultiple(r: int, m: nat, j: int)
    requires m >= 1
    ensures (m * j + r) % m == r % m
  {
    var a := r / m;
    var b := r % m;
    assert m * j + r == m * (j + a) + b;
    DivModUnique(m * j + r, m, j + a, b);
  }

  lemma DivModUnique(x: int, m: nat, q: int, r: int)
    requires m >= 1 && 0 <= r < m && x == m * q + r
    ensures x % m == r && x / m == q
  {
    var q' := x / m;
    var r' := x % m;
    assert m * (q - q') == r' - r;
    MulAwayFromZero(m, q - q');
  }

  lemma MulAwayFromZero(m: nat, d: int)
    requires m >= 1
    ensures d == 0 || m * d >= m || m * d <= 0 - (m as int)
  {
    if d >= 1 {
      MulAtLeast(m, d);
    } else if d <= -1 {
      MulAtLeast(m, -d);
      assert m * (-d) == -(m * d);
    }
  }

  lemma MulAtLeast(m: nat, k: int)
    requires k >= 1
    ensures m * k >= m
  {
    assert m * k == m + m * (k - 1);
  }

  lemma MulNonNegative(a: nat, d: nat)
    ensures a * d >= 0
  {
  }

  lemma MulMonotone(a: nat, b: nat, c: nat)
    requires a <= b
    ensures a * c <= b * c
  {
    assert b * c - a * c == (b - a) * c;
    MulNonNegative(b - a, c);
  }

  /** Integer division rounds down to a whole number of m. */
  lemma DivBounds(x: nat, m: nat)
    requires m >= 1
    ensures (x / m) * m <= x < (x / m) * m + m
  {
    assert x == m * (x / m) + x % m;
  }

  /** x mod (a*b) split into its low digit mod a and the rest. */
  lemma ModProduct(x: nat, a: nat, b: nat)
    requires a >= 1 && b >= 1
    ensures x % (a * b) == x % a + a * ((x / a) % b)
  {
    var q := x / a;
    var r := x % a;
    var q2 := q / b;
    var r2 := q % b;
    assert x == a * q + r;
    assert q == b * q2 + r2;
    MulDistributes(a, b, q2, r2);
    DigitBound(a, b, r2, r);
    DivModUnique(x, a * b, q2, a * r2 + r);
  }

  lemma MulDistributes(a: int, b: int, q: int, r: int)
    ensures a * (b * q + r) == (a * b) * q + a * r
  {
  }

  /** A two-digit number in base (a, b) is below a*b. */
  lemma DigitBound(a: nat, b: nat, hi: nat, lo: nat)
    requires lo < a && hi < b
    ensures a * hi + lo < a * b
  {
    assert a * (b - 1) - a * hi == a * (b - 1 - hi);
    MulNonNegative(a, b - 1 - hi);
    assert a * (b - 1) == a * b - a;
  }

  // ---------------------------------------------------------------------------
  // Little-endian packing

  /** Value of a little-endian byte string. */
  function LE(bs: seq<Byte>): (v: nat)
    ensures v < Pow256(|bs|)
  {
    if bs == [] then 0 else bs[0] + 256 * LE(bs[1..])
  }

  /** The `n` least significant bytes of `v`, least significant first. */
  function LEBytes(v: nat, n: nat): (r: seq<Byte>)
    ensures |r| == n
  {
    if n == 0 then [] else [v % 256] + LEBytes(v / 256, n - 1)
  }

  function Zeros(n: nat): (r: seq<Byte>)
    ensures |r| == n
  {
    seq(n, _ => 0)
  }

  /** Writing the low n bytes and reading them back gives v modulo 256^n. */
  lemma {:induction false} LEOfLEBytes(v: nat, n: nat)
    ensures LE(LEBytes(v, n)) == v % Pow256(n)
  {
    if n > 0 {
      LEOfLEBytes(v / 256, n - 1);
      assert LEBytes(v, n)[1..] == LEBytes(v / 256, n - 1);
      ModProduct(v, 256, Pow256(n - 1));
    }
  }

  /** Reading a byte string and writing it back gives the same bytes. */
  lemma {:induction false} LEBytesOfLE(bs: seq<Byte>)
    ensures LEBytes(LE(bs), |bs|) == bs
  {
    if bs != [] {
      LEBytesOfLE(bs[1..]);
      var v := LE(bs);
      assert v % 256 == bs[0] && v / 256 == LE(bs[1..]) by {
        DivModUnique(v, 256, LE(bs[1..]), bs[0]);
      }
    }
  }

  lemma LEOfZeros(n: nat)
    ensures LE(Zeros(n)) == 0
  {
    if n > 0 {
      assert Zeros(n)[1..] == Zeros(n - 1);
      LEOfZeros(n - 1);
    }
  }

  // ---------------------------------------------------------------------------
  // Two's complement

  const TWO_63: nat := 0x8000_0000_0000_0000

  /** int64_t. */
  type I64 = x: int | 0 - (TWO_63 as int) <= x < TWO_63

  const INT32_MAX: int := 0x7FFF_FFFF
  const INT32_MIN: int := -0x8000_0000

  /** A uint64_t converted to int64_t: the same 64 bits read as two's
      complement. */
  function Signed64(x: U64): (r: I64)
    ensures r % TWO_64 == x
    ensures x < TWO_63 ==> r == x
  {
    if x < TWO_63 then x else x - TWO_64
  }

  /** An int64_t converted to uint64_t. */
  function Unsigned64(x: I64): (r: U64)
    ensures Signed64(r) == x
  {
    Wrap64(x)
  }
}
