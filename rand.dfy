/**
 * The "slightly hard" generator of `server/rand.js`: the word mixers `mix32`
 * and `splitmix64`, `rotl32`, the three-round keyed network `Feistel3`, and
 * the counter-mode class `SlightlyHardRNG` whose `next` advances a counter by
 * 0x9E3779B9 and returns the permuted counter.
 *
 * Words are `bv32` bit patterns; an argument that JavaScript passes as a
 * number keeps the type `int`, and the JS conversions (`>>> 0`, the signed
 * result of `^` and `&`, the double product) are spelled out with the
 * helpers of `JsRuntime`.
 */
module Rand {
  import opened JsRuntime

  const Mix32Multiplier1: nat := 0x7feb352d
  const Mix32Multiplier2: nat := 0x846ca68b
  const SplitMixIncrement: int := 0x9E3779B9
  const SplitMixMultiplier1: nat := 0xbf58476d
  const SplitMixMultiplier2: nat := 0x94d049bb
  const RoundMultiplier: nat := 0x9E3779B1
  /** The amount `next` adds to the counter. */
  const CounterStep: int := 0x9E3779B9
  const DefaultWorkBits: int := 26

  // ---------------------------------------------------------------------------
  // Word mixers

  /** `x ^ (x >>> k)` for a shift amount below 32. */
  function XorShift(x: bv32, k: bv32): bv32
    requires k < 32
  {
    x ^ (x >> k)
  }

  /**
   * `mix32(x)`: truncate to a word, then xor-shift 16, multiply, xor-shift 15,
   * multiply, xor-shift 16. The multiplies see the signed int32 that `^=`
   * leaves in `x`.
   */
  function Mix32(x: int): bv32
  {
    var a := XorShift(ToUint32(x), 16);
    var b := JsMulU32(Int32Value(a), Mix32Multiplier1);
    var c := XorShift(b, 15);
    var d := JsMulU32(Int32Value(c), Mix32Multiplier2);
    XorShift(d, 16)
  }

  /** `mix32` reads its argument only through `x >>> 0`. */
  lemma Mix32Modulo(x: int)
    ensures Mix32(x - TwoTo32) == Mix32(x)
  {
    ToUint32Periodic(x);
  }

  /** `mix32(0) === 0`: zero is a fixed point of every step. */
  lemma Mix32Zero()
    ensures Mix32(0) == 0
  {
    assert ToUint32(0) == 0;
    ZeroProduct(Mix32Multiplier1);
    ZeroProduct(Mix32Multiplier2);
  }

  lemma ZeroProduct(c: nat)
    ensures JsMulU32(Int32Value(0), c) == 0
  {
    assert Int32Value(0) == 0;
    JsMulU32Exact(0, c);
  }

  /**
   * `splitmix64(x)` (a 32-bit reduction of SplitMix64): add 0x9E3779B9 and
   * truncate, then two xor-shift/multiply steps and a final xor-shift 31.
   */
  function Splitmix64(x: int): bv32
  {
    var a := ToUint32(x + SplitMixIncrement);
    var b := JsMulU32(Int32Value(XorShift(a, 30)), SplitMixMultiplier1);
    var c := JsMulU32(Int32Value(XorShift(b, 27)), SplitMixMultiplier2);
    XorShift(c, 31)
  }

  /** `splitmix64` reads its argument only modulo 2^32. */
  lemma Splitmix64Modulo(x: int)
    ensures Splitmix64(x - TwoTo32) == Splitmix64(x)
  {
    ToUint32Periodic(x + SplitMixIncrement);
  }

  // ---------------------------------------------------------------------------
  // rotl32

  /**
   * `rotl32(x, r)` for the word `x` and the shift count `r` (as a word):
   * `(x << r) | (x >>> (32 - r))`, where JavaScript masks both shift
   * counts to their low five bits.
   */
  function Rotl32(x: bv32, r: bv32): bv32
  {
    (x << (r & 31)) | (x >> ((32 - r) & 31))
  }

  /** One-bit left rotation, the reference the rotation is checked against. */
  function RotateLeftOnce(x: bv32): bv32
  {
    (x << 1) | (x >> 31)
  }

  /** The word `x` rotated left one bit at a time, `n` times. */
  function RotateLeftTimes(x: bv32, n: bv32): bv32
    decreases n
  {
    if n == 0 then x else RotateLeftOnce(RotateLeftTimes(x, n - 1))
  }

  /** For every count in 0..31, `rotl32` is the 32-bit left rotation by that count. */
  lemma {:induction false} Rotl32IsRotation(x: bv32, n: bv32)
    requires n < 32
    decreases n
    ensures Rotl32(x, n) == RotateLeftTimes(x, n)
  {
    if n == 0 {
      RotlByZero(x);
    } else {
      Rotl32IsRotation(x, n - 1);
      RotlStep(x, n - 1);
    }
  }

  lemma RotlByZero(x: bv32)
    ensures Rotl32(x, 0) == x
  {
    RotlZeroBits(x);
  }

  lemma RotlZeroBits(x: bv32)
    ensures var zero: bv32 := 0; (x << (zero & 31)) | (x >> ((32 - zero) & 31)) == x
  {
  }

  lemma RotlStep(x: bv32, r: bv32)
    requires r < 31
    ensures Rotl32(x, r + 1) == RotateLeftOnce(Rotl32(x, r))
  {
    RotlStepBits(x, r);
  }

  lemma RotlStepBits(x: bv32, r: bv32)
    requires r < 31
    ensures (x << ((r + 1) & 31)) | (x >> ((32 - (r + 1)) & 31))
         == (((x << (r & 31)) | (x >> ((32 - r) & 31))) << 1)
          | (((x << (r & 31)) | (x >> ((32 - r) & 31))) >> 31)
  {
  }

  /** Rotating by `r` and then by `32 - r` gives the word back, for `r` in 1..31. */
  lemma Rotl32Inverse(x: bv32, r: bv32)
    requires 1 <= r <= 31
    ensures Rotl32(Rotl32(x, r), 32 - r) == x
  {
    Rotl32IsRotation(x, r);
    Rotl32IsRotation(Rotl32(x, r), 32 - r);
    RotateLeftTimesAdd(x, r, 32 - r);
    RotateLeftFullTurn(x);
  }

  /** Rotating `a` times and then `b` times is rotating `a + b` times. */
  lemma {:induction false} RotateLeftTimesAdd(x: bv32, a: bv32, b: bv32)
    requires a <= 32 && b <= 32 - a
    decreases b
    ensures RotateLeftTimes(RotateLeftTimes(x, a), b) == RotateLeftTimes(x, a + b)
  {
    if b != 0 {
      RotateLeftTimesAdd(x, a, b - 1);
      assert a + b - 1 == a + (b - 1);
    }
  }

  /** Thirty-two one-bit rotations give the word back. */
  lemma RotateLeftFullTurn(x: bv32)
    ensures RotateLeftTimes(x, 32) == x
  {
    Rotl32IsRotation(x, 31);
    RotlLastStepBits(x);
  }

  lemma RotlLastStepBits(x: bv32)
    ensures var y := (x << 31) | (x >> 1); (y << 1) | (y >> 31) == x
  {
  }

  // ---------------------------------------------------------------------------
  // Feistel3

  /** `Feistel3.F(x, k, p)` for the words `x`, `k` and the JS number `p`. */
  function RoundFunction(x: bv32, k: bv32, p: int): bv32
  {
    KeyedRound(Xor(x, k), p)
  }

  /** The rest of `Feistel3.F` once `x ^ k` is formed: multiply, rotate, add `p`, rotate by `p & 31`. */
  function KeyedRound(a: bv32, p: int): bv32
  {
    var b := JsMulU32(Uint32Value(a), RoundMultiplier);
    var c := Rotl32(b, 13);
    var d := Xor(c, ToUint32(Uint32Value(c) + p));
    Rotl32(d, ToUint32(p) & 31)
  }

  /** The round function sees `x` and `k` only through `x ^ k`. */
  lemma RoundFunctionKeyed(x: bv32, k: bv32, p: int)
    ensures RoundFunction(x, k, p) == RoundFunction(Xor(x, k), 0, p)
  {
    XorZero(Xor(x, k));
  }

  lemma XorZero(w: bv32)
    ensures Xor(w, 0) == w
  {
    XorZeroBits(w);
  }

  lemma XorZeroBits(w: bv32)
    ensures w ^ 0 == w
  {
  }

  /** The keys of a `Feistel3`, as its constructor stores them (`>>> 0`). */
  datatype Feistel3 = Feistel3(k0: bv32, k1: bv32, pepper: bv32)
  {
    /**
     * `permute(v)`: L starts as all of `v` and R as its high half; two rounds
     * that xor the round function into L and swap, a third without the swap,
     * and the result `(R << 16) | L`.
     */
    function Permute(v: bv32): (r: bv32)
      ensures var r0 := HighHalf(v);
        var t1 := RoundFunction(r0, k0, Uint32Value(pepper));
        var t2 := RoundFunction(Xor(v, t1), k1, Int32Value(Xor(pepper, 0xA5A5A5A5)));
        var t3 := RoundFunction(Xor(r0, t2), Xor(k0, k1), Uint32Value(Rotl32(pepper, 7)));
        r == JoinHalves(Xor(r0, t2), Xor(Xor(v, t1), t3))
    {
      var left, right := v, HighHalf(v);
      // Round 1
      var t := RoundFunction(right, k0, Uint32Value(pepper));
      var left := Xor(left, t);
      var left, right := right, left;
      // Round 2
      var t := RoundFunction(right, k1, Int32Value(Xor(pepper, 0xA5A5A5A5)));
      var left := Xor(left, t);
      var left, right := right, left;
      // Round 3
      var t := RoundFunction(right, Xor(k0, k1), Uint32Value(Rotl32(pepper, 7)));
      var left := Xor(left, t);
      JoinHalves(right, left)
    }
  }

  /** `new Feistel3(k0, k1, pepper)` for JS numbers: each key is stored as `>>> 0`. */
  function NewFeistel3(k0: int, k1: int, pepper: int): Feistel3
  {
    Feistel3(ToUint32(k0), ToUint32(k1), ToUint32(pepper))
  }

  /** Keys that are already words, whether read unsigned or signed, are stored unchanged. */
  lemma NewFeistel3Stores(k0: bv32, k1: bv32, pepper: bv32)
    ensures NewFeistel3(Uint32Value(k0), Uint32Value(k1), Int32Value(pepper)) == Feistel3(k0, k1, pepper)
  {
    Uint32RoundTrip(k0);
    Uint32RoundTrip(k1);
    Int32RoundTrip(pepper);
  }

  // ---------------------------------------------------------------------------
  // SlightlyHardRNG

  /** `(workBits >= 32) ? 0xFFFFFFFF : ((1 << workBits) - 1)`, as a word. */
  function WorkMask(workBits: int): bv32
  {
    if workBits >= 32 then 0xFFFF_FFFF else ((1 as bv32) << (ToUint32(workBits) & 31)) - 1
  }

  /** With the default 26 work bits, the mask keeps the low 26 bits. */
  lemma DefaultWorkMask()
    ensures WorkMask(DefaultWorkBits) == 0x3FF_FFFF
  {
    assert ToUint32(26) == 26;
  }

  /** The first seed word: `splitmix64(seed ^ 0xD1B54A32)`. */
  function KeySeed0(seed: int): bv32
  {
    Splitmix64(Int32Value(ToUint32(seed) ^ 0xD1B54A32))
  }

  /** The second seed word: `splitmix64(seed ^ 0x94D049BB)`. */
  function KeySeed1(seed: int): bv32
  {
    Splitmix64(Int32Value(ToUint32(seed) ^ 0x94D049BB))
  }

  /** The masked mixed word `mix32(s1 & 0xFFFFFFFF) & mask`, as a bit pattern. */
  function MaskedPepper(seed: int, workBits: int): bv32
  {
    And(Mix32(Int32Value(KeySeed1(seed))), WorkMask(workBits))
  }

  /** `if (pepper === 0) pepper = 1` for the signed number the masking leaves. */
  function PepperOf(m: bv32): int
  {
    var masked := Int32Value(m);
    if masked == 0 then 1 else masked
  }

  /** The pepper as a JS number: the masked mixed word, and 1 in place of 0. */
  function PepperNumber(seed: int, workBits: int): int
  {
    PepperOf(MaskedPepper(seed, workBits))
  }

  /** The `Feistel3` the `SlightlyHardRNG` constructor builds from `seed` and `workBits`. */
  function KeySchedule(seed: int, workBits: int): Feistel3
  {
    var s0 := KeySeed0(seed);
    var k0 := Mix32(Int32Value(s0));
    var k1 := Mix32(Int32Value(HighHalf(s0)));
    NewFeistel3(Uint32Value(k0), Uint32Value(k1), PepperNumber(seed, workBits))
  }

  /** The pepper word stored is the masked word itself, or 1 when that is 0. */
  lemma PepperWord(m: bv32)
    ensures ToUint32(PepperOf(m)) == if m == 0 then 1 else m
  {
    Int32ValueZero(m);
    Int32RoundTrip(m);
    assert ToUint32(1) == 1;
  }

  /**
   * The pepper is never 0, and whenever the mask is not 0 it is at most the
   * mask (so below 2^workBits for workBits in 1..31).
   */
  lemma PepperBounds(seed: int, workBits: int)
    ensures var f := KeySchedule(seed, workBits);
      f.pepper != 0 && (WorkMask(workBits) != 0 ==> f.pepper <= WorkMask(workBits))
  {
    PepperWord(MaskedPepper(seed, workBits));
    AndBelowMask(Mix32(Int32Value(KeySeed1(seed))), WorkMask(workBits));
  }

  /** With the default work bits the pepper is a nonzero number below 2^26. */
  lemma DefaultPepperBounds(seed: int)
    ensures 0 < KeySchedule(seed, DefaultWorkBits).pepper < 0x400_0000
  {
    PepperBounds(seed, DefaultWorkBits);
    DefaultWorkMask();
  }

  /** The counter after `n` calls of `next`, from the starting counter `start`. */
  function CounterAt(start: int, n: nat): (c: int)
    ensures 0 <= c < TwoTo32
  {
    (start + n * CounterStep) % TwoTo32
  }

  /** Before any call the counter is where it started. */
  lemma CounterAtStart(start: int)
    requires 0 <= start < TwoTo32
    ensures CounterAt(start, 0) == start
  {
  }

  /** One call of `next` moves the closed form from `n` to `n + 1`. */
  lemma CounterAdvance(start: int, n: nat)
    ensures (CounterAt(start, n) + CounterStep) % TwoTo32 == CounterAt(start, n + 1)
  {
    var q := (start + n * CounterStep) / TwoTo32;
    assert start + n * CounterStep == q * TwoTo32 + CounterAt(start, n);
    assert start + (n + 1) * CounterStep == (CounterAt(start, n) + CounterStep) + q * TwoTo32;
    ModuloShift(CounterAt(start, n) + CounterStep, q);
  }

  lemma ModuloShift(a: int, q: int)
    ensures (a + q * TwoTo32) % TwoTo32 == a % TwoTo32
  {
  }

  /** The `i`-th value (from 0) that a fresh `SlightlyHardRNG(seed, workBits)` returns. */
  function OutputAt(seed: int, workBits: int, i: nat): bv32
  {
    KeySchedule(seed, workBits).Permute(ToUint32(CounterAt(Uint32Value(Splitmix64(seed)), i + 1)))
  }

  /** `SlightlyHardRNG`: a keyed permutation applied to a counter. */
  class SlightlyHardRng {
    /** The counter, a JS number in [0, 2^32). */
    var ctr: int
    const f: Feistel3
    /** `splitmix64(seed)`, where the counter started. */
    ghost const start: int
    /** How many times `next` has run. */
    ghost var calls: nat

    /** The counter is `splitmix64(seed) + calls * 0x9E3779B9` modulo 2^32. */
    ghost predicate Valid()
      reads this
    {
      ctr == CounterAt(start, calls)
    }

    /** `new SlightlyHardRNG(seed, workBits)`. */
    constructor(seed: int, workBits: int)
      ensures Valid() && calls == 0
      ensures start == Uint32Value(Splitmix64(seed)) && ctr == start
      ensures f == KeySchedule(seed, workBits)
    {
      var s := Uint32Value(Splitmix64(seed));
      CounterAtStart(s);
      ctr := s;
      f := KeySchedule(seed, workBits);
      start := s;
      calls := 0;
    }

    /** `next()`: `ctr = (ctr + 0x9E3779B9) >>> 0`, then return `permute(ctr)`. */
    method Next() returns (r: bv32)
      requires Valid()
      modifies this
      ensures Valid() && calls == old(calls) + 1
      ensures ctr == (old(ctr) + CounterStep) % TwoTo32
      ensures r == f.Permute(ToUint32(ctr))
    {
      CounterAdvance(start, calls);
      ctr := (ctr + CounterStep) % TwoTo32;
      calls := calls + 1;
      assert ctr == CounterAt(start, calls);
      r := f.Permute(ToUint32(ctr));
    }
  }

  /**
   * The reproducibility check, for any seed, work bits and length: two
   * generators built alike return the same `n` values, and the `i`-th is
   * `permute(splitmix64(seed) + (i + 1) * 0x9E3779B9 mod 2^32)`.
   */
  method Reproducible(seed: int, workBits: int, n: nat) returns (xs: seq<bv32>, ys: seq<bv32>)
    ensures |xs| == n && xs == ys
    ensures forall i | 0 <= i < n :: xs[i] == OutputAt(seed, workBits, i)
  {
    var first := new SlightlyHardRng(seed, workBits);
    var second := new SlightlyHardRng(seed, workBits);
    xs, ys := [], [];
    var i := 0;
    while i < n
      invariant 0 <= i <= n && |xs| == i && xs == ys
      invariant first != second
      invariant first.Valid() && second.Valid()
      invariant first.calls == i && second.calls == i
      invariant first.start == second.start == Uint32Value(Splitmix64(seed))
      invariant first.f == second.f == KeySchedule(seed, workBits)
      invariant forall j | 0 <= j < i :: xs[j] == OutputAt(seed, workBits, j)
    {
      var x := first.Next();
      var y := second.Next();
      AppendOutput(xs, x, seed, workBits);
      xs, ys := xs + [x], ys + [y];
      i := i + 1;
    }
  }

  /** Appending output `|xs|` keeps the prefix of the output list correct. */
  lemma AppendOutput(xs: seq<bv32>, x: bv32, seed: int, workBits: int)
    requires forall j | 0 <= j < |xs| :: xs[j] == OutputAt(seed, workBits, j)
    requires x == OutputAt(seed, workBits, |xs|)
    ensures forall j | 0 <= j < |xs| + 1 :: (xs + [x])[j] == OutputAt(seed, workBits, j)
  {
  }
}
