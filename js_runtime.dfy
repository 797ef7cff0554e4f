/**
 * The few pieces of JavaScript's value semantics that the hash, generator and
 * server code relies on: ToUint32 / ToInt32 of integral numbers, the IEEE-754
 * double product behind `(a * C) >>> 0`, strings as UTF-16 code units, and the
 * decimal text of `i.toString()`.
 *
 * 32-bit words are `bv32` bit patterns. A JS number produced by `>>> 0` is the
 * unsigned reading of such a pattern; one produced by `^`, `&`, `|` or `<<` is
 * the signed reading (`Int32Value`).
 */
module JsRuntime {

  const TwoTo32: int := 0x1_0000_0000
  const TwoTo53: int := 0x20_0000_0000_0000

  datatype Option<T> = None | Some(value: T)

  /** `n >>> 0` for an integral JS number `n`. */
  function ToUint32(n: int): bv32
  {
    (n % TwoTo32) as bv32
  }

  /** The JS number `>>> 0` yields for the bit pattern `b`. */
  function Uint32Value(b: bv32): (n: int)
    ensures 0 <= n < TwoTo32
  {
    b as int
  }

  /** The JS number a bitwise operator (`^`, `&`, `|`, `<<`) yields for the bit pattern `b`. */
  function Int32Value(b: bv32): int
  {
    if b < 0x8000_0000 then Uint32Value(b) else Uint32Value(b) - TwoTo32
  }

  /** `(x >>> 0) >>> 0 === x >>> 0`: reading a word back as an unsigned number and truncating again is the identity. */
  lemma Uint32RoundTrip(b: bv32)
    ensures ToUint32(Uint32Value(b)) == b
  {
    SmallModulo(Uint32Value(b));
    BitsBack(b);
  }

  /** `(x | 0) >>> 0`: the signed reading of a word truncates back to the same word. */
  lemma Int32RoundTrip(b: bv32)
    ensures ToUint32(Int32Value(b)) == b
  {
    var n := Uint32Value(b);
    if b < 0x8000_0000 {
      assert Int32Value(b) == n;
    } else {
      assert Int32Value(b) == n - TwoTo32;
      ToUint32Periodic(n);
    }
    Uint32RoundTrip(b);
  }

  /** The signed reading of a word is 0 only for the zero word. */
  lemma Int32ValueZero(b: bv32)
    ensures Int32Value(b) == 0 <==> b == 0
  {
  }

  /** ToUint32 sees its argument only modulo 2^32. */
  lemma ToUint32Periodic(n: int)
    ensures ToUint32(n - TwoTo32) == ToUint32(n)
  {
    var q, r := n / TwoTo32, n % TwoTo32;
    assert n - TwoTo32 == (q - 1) * TwoTo32 + r;
    ModuloOf(n - TwoTo32, q - 1, r);
  }

  /** `x % 2^32` is the remainder `r` of any decomposition `x == q * 2^32 + r` with `r` in range. */
  lemma ModuloOf(x: int, q: int, r: int)
    requires 0 <= r < TwoTo32 && x == q * TwoTo32 + r
    ensures x % TwoTo32 == r
  {
  }

  lemma SmallModulo(n: int)
    requires 0 <= n < TwoTo32
    ensures n % TwoTo32 == n
  {
  }

  lemma BitsBack(b: bv32)
    ensures (b as int) as bv32 == b
  {
  }

  /**
   * Round the number `m + (g ? 1/2 : 0) + (s ? a positive amount below 1/2 : 0)`
   * to a double (53 significant bits, ties to even, no exponent limit): `g` is
   * the first bit shifted out so far and `s` whether any later one was set.
   */
  function RoundBits(m: nat, g: bool, s: bool): nat
  {
    if m < TwoTo53 then
      if g && (s || m % 2 == 1) then m + 1 else m
    else
      2 * RoundBits(m / 2, m % 2 == 1, g || s)
  }

  /** The double nearest the integer `m`, ties to even. */
  function RoundToDouble(m: nat): nat
  {
    RoundBits(m, false, false)
  }

  /** 2^1024: magnitudes that round to it or beyond become Infinity. */
  const DoubleOverflow: nat := 0x1_0000_0000_0000_0000_0000_0000_0000_0000_0000_0000_0000_0000_0000_0000_0000_0000_0000_0000_0000_0000_0000_0000_0000_0000_0000_0000_0000_0000_0000_0000_0000_0000_0000_0000_0000_0000_0000_0000_0000_0000_0000_0000_0000_0000_0000_0000_0000_0000_0000_0000_0000_0000_0000_0000_0000_0000_0000_0000_0000_0000_0000_0000_0000_0000

  /**
   * `(a * c) >>> 0` in JavaScript: the product is a double (rounded to 53
   * significant bits, sign kept, Infinity past the largest double) and then
   * reduced modulo 2^32, Infinity giving 0.
   */
  function JsMulU32(a: int, c: nat): bv32
  {
    var p := a * c;
    var d := RoundToDouble(if p < 0 then -p else p);
    if d >= DoubleOverflow then 0 else ToUint32(if p < 0 then -(d as int) else d)
  }

  /** While the product stays below 2^53 in magnitude, the double product is exact. */
  lemma JsMulU32Exact(a: int, c: nat)
    requires -TwoTo53 < a * c < TwoTo53
    ensures JsMulU32(a, c) == ToUint32(a * c)
  {
    var p := a * c;
    var m := if p < 0 then -p else p;
    assert RoundBits(m, false, false) == m;
  }

  // ---------------------------------------------------------------------------
  // Words

  /** `a ^ b` on the bit patterns of two words. */
  function Xor(a: bv32, b: bv32): bv32
  {
    a ^ b
  }

  /** `a & b` on the bit patterns of two words. */
  function And(a: bv32, b: bv32): bv32
  {
    a & b
  }

  /** Masking keeps a word at or below the mask; a nonzero mask is at least 1. */
  lemma AndBelowMask(x: bv32, mask: bv32)
    ensures And(x, mask) <= mask
    ensures mask != 0 ==> 1 <= mask
  {
    AndBits(x, mask);
  }

  /** `w & 0xFFFF`: the low 16 bits of a word. */
  function LowHalf(w: bv32): bv32
  {
    w & 0xFFFF
  }

  /** `(w >>> 16) & 0xFFFF`: the high 16 bits of a word. */
  function HighHalf(w: bv32): bv32
  {
    (w >> 16) & 0xFFFF
  }

  /**
   * `(hi << 16) | lo`: for 16-bit `hi` and `lo`, the word whose high half is
   * `hi` and low half is `lo`.
   */
  function JoinHalves(hi: bv32, lo: bv32): bv32
  {
    (hi << 16) | lo
  }

  /** Both halves of a word fit in 16 bits. */
  lemma HalvesBounded(w: bv32)
    ensures LowHalf(w) < 0x1_0000 && HighHalf(w) < 0x1_0000
  {
    MaskBits(w);
  }

  /**
   * A word equals `JoinHalves(hi, lo)`, with `hi` and `lo` below 2^16,
   * exactly when `lo` and `hi` are its low and high halves.
   */
  lemma JoinHalvesIff(w: bv32, lo: bv32, hi: bv32)
    requires lo < 0x1_0000 && hi < 0x1_0000
    ensures JoinHalves(hi, lo) == w <==> lo == LowHalf(w) && hi == HighHalf(w)
  {
    JoinBits(w, lo, hi);
  }

  /** Joining 16-bit halves is the same as `hi * 65536 + lo`. */
  lemma JoinHalvesSum(lo: bv32, hi: bv32)
    requires lo < 0x1_0000 && hi < 0x1_0000
    ensures JoinHalves(hi, lo) == hi * 0x1_0000 + lo
  {
    JoinIsSum(lo, hi);
  }

  lemma AndBits(x: bv32, mask: bv32)
    ensures x & mask <= mask
  {
  }

  lemma MaskBits(w: bv32)
    ensures w & 0xFFFF < 0x1_0000 && (w >> 16) & 0xFFFF < 0x1_0000
  {
  }

  lemma JoinBits(w: bv32, lo: bv32, hi: bv32)
    requires lo < 0x1_0000 && hi < 0x1_0000
    ensures (hi << 16) | lo == w <==> lo == w & 0xFFFF && hi == (w >> 16) & 0xFFFF
  {
  }

  lemma JoinIsSum(lo: bv32, hi: bv32)
    requires lo < 0x1_0000 && hi < 0x1_0000
    ensures (hi << 16) | lo == hi * 0x1_0000 + lo
  {
  }

  // ---------------------------------------------------------------------------
  // Strings

  /** A UTF-16 code unit, what `charCodeAt` returns. */
  type CodeUnit = c: int | 0 <= c < 0x1_0000

  /** A JavaScript string: a sequence of UTF-16 code units. */
  type JsString = seq<CodeUnit>

  /** The JS string literal spelled by an ASCII Dafny string. */
  function Ascii(s: string): (r: JsString)
    requires forall i | 0 <= i < |s| :: s[i] < 128 as char
    ensures |r| == |s|
    ensures forall i | 0 <= i < |s| :: r[i] == s[i] as int
  {
    seq(|s|, i requires 0 <= i < |s| => s[i] as int)
  }

  predicate IsDigit(c: CodeUnit)
  {
    '0' as int <= c <= '9' as int
  }

  /**
   * `n.toString()` for a non-negative integer `n` below 10^21, from where
   * JavaScript switches to exponent notation; the code converts only block
   * indices and lock seconds.
   */
  function Decimal(n: nat): (s: JsString)
    ensures |s| >= 1
    ensures forall i | 0 <= i < |s| :: IsDigit(s[i])
    ensures n >= 10 ==> s[0] != '0' as int
  {
    if n < 10 then ['0' as int + n] else Decimal(n / 10) + ['0' as int + n % 10]
  }

  /** Reads a string of decimal digits back as a number (left to right, most significant first). */
  function DecimalValue(s: JsString): nat
    requires forall i | 0 <= i < |s| :: IsDigit(s[i])
  {
    if s == [] then 0 else
      assert IsDigit(s[|s| - 1]);
      10 * DecimalValue(s[..|s| - 1]) + (s[|s| - 1] - '0' as int)
  }

  /** `Decimal` is injective: its text reads back as the number it was made from. */
  lemma {:induction false} DecimalRoundTrip(n: nat)
    ensures DecimalValue(Decimal(n)) == n
  {
    if n >= 10 {
      var s := Decimal(n);
      assert s[..|s| - 1] == Decimal(n / 10);
      DecimalRoundTrip(n / 10);
    }
  }
}
