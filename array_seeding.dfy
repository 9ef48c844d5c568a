/**
 * The two array seeders of xoroshiro128plus/xoroshiro.hpp, which fill an
 * engine's n-word state from 32-bit words: seed_array_non_zero_int (from a
 * seed sequence) and fill_array_non_zero_int (from an iterator range).
 * Both pack pairs of 32-bit words, low word first, and keep the packed
 * words unless every one of them is zero; in that case they fall back to
 * the outputs of a splitmix64, so a state of two or more words is never
 * all zero.
 *
 * The seed sequence appears through what it produces: `storage` is the
 * output of its generate over 2n words, and `param` the words of its
 * param.  The iterator range is the sequence of values it holds, of any
 * integer type; the range seeder casts each to 64 bits and ors the second
 * of a pair, shifted by 32, into the first.
 */
module ArraySeeding {
  import opened Bits
  import Word32
  import opened Word64
  import opened SplitMix

  const HALF: int := 0x1_0000_0000

  /** (static_cast<uint64_t>(hi) << 32) + lo: lo is the low half and hi the high half. */
  function Pack(lo: Word32.u32, hi: Word32.u32): (r: u64)
    ensures r % HALF == lo && r / HALF == hi
  {
    DivModUnique(hi * HALF + lo, HALF, hi, lo);
    hi * HALF + lo
  }

  /** The first n words packed from 2n 32-bit words, word j from words 2j and 2j+1. */
  function Packed(words: seq<Word32.u32>, n: nat): (r: seq<u64>)
    requires |words| >= 2 * n
    ensures |r| == n
    ensures forall j :: 0 <= j < n ==> r[j] % HALF == words[2 * j] && r[j] / HALF == words[2 * j + 1]
  {
    seq(n, j requires 0 <= j < n => Pack(words[2 * j], words[2 * j + 1]))
  }

  predicate AllZero(x: seq<u64>)
  {
    forall j :: 0 <= j < |x| ==> x[j] == 0
  }

  // ---------------------------------------------------------------------
  // The packing of the range seeder

  /**
   * static_cast<std::uint64_t>(v) for a range element v of any integer
   * type: v modulo 2^64, so a negative value becomes its two's complement.
   */
  function Cast64(v: int): u64
  {
    v % MOD64
  }

  /** x << 32 keeps the low 32 bits of x, moved to the high half. */
  lemma ShlHalf(x: u64)
    ensures Shl(x, 32) == (x % HALF) * HALF
  {
    Exp2Values64();
    var q, l := x / HALF, x % HALF;
    assert x * HALF == q * MOD64 + l * HALF;
    DivModUnique(x * HALF, MOD64, q, l * HALF);
  }

  /**
   * x[j] = static_cast<uint64_t>(lo); x[j] |= static_cast<uint64_t>(hi) << 32:
   * zero exactly when lo is zero as a 64-bit word and hi has no bit in its
   * low 32.
   */
  function RangeWord(lo: int, hi: int): (r: u64)
    ensures r == 0 <==> Cast64(lo) == 0 && Cast64(hi) % HALF == 0
  {
    ShlHalf(Cast64(hi));
    OrW(Cast64(lo), Shl(Cast64(hi), 32))
  }

  /**
   * For elements that are 32-bit words the range packing is the packing of
   * the seed-sequence path; wider or negative elements also set high bits
   * through lo.
   */
  lemma RangeWordOfWords(lo: Word32.u32, hi: Word32.u32)
    ensures RangeWord(lo, hi) == Pack(lo, hi)
  {
    Exp2Values64();
    assert Cast64(lo) == lo && Cast64(hi) == hi;
    ShlHalf(hi);
    assert Shl(hi, 32) == hi * Exp2(32);
    OrDisjoint(lo, hi, 32);
    hide Or;
    assert OrW(lo, Shl(hi, 32)) == Or(lo, hi * Exp2(32));
  }

  /** The first n words the range seeder packs from 2n range elements. */
  function RangePacked(range: seq<int>, n: nat): (r: seq<u64>)
    requires |range| >= 2 * n
    ensures |r| == n
    ensures forall j :: 0 <= j < n ==>
      (r[j] == 0 <==> Cast64(range[2 * j]) == 0 && Cast64(range[2 * j + 1]) % HALF == 0)
  {
    seq(n, j requires 0 <= j < n => RangeWord(range[2 * j], range[2 * j + 1]))
  }

  /** On a range of 32-bit words both packings agree. */
  lemma RangePackedOfWords(words: seq<Word32.u32>, n: nat)
    requires |words| >= 2 * n
    ensures RangePacked(words, n) == Packed(words, n)
  {
    forall j | 0 <= j < n
      ensures RangePacked(words, n)[j] == Packed(words, n)[j]
    {
      RangeWordOfWords(words[2 * j], words[2 * j + 1]);
    }
  }

  // ---------------------------------------------------------------------
  // The fallback seed of seed_array_non_zero_int

  /**
   * static_cast<std::uint64_t>(i) for the int i that a 32-bit word becomes
   * in the param vector: words from 2^31 up are negative ints, and the
   * conversion sign-extends them.
   */
  function SignExtend(w: Word32.u32): (r: u64)
    ensures r % HALF == w
  {
    if w < 0x8000_0000 then w else w + (MOD64 - HALF)
  }

  /** The shift applied to param word i: `shift ^= 32` starting from 32 gives 0, 32, 0, ... */
  function ShiftFor(i: nat): nat
  {
    if i % 2 == 0 then 0 else 32
  }

  /** One step of the fold: seed ^= integer_hash((word << shift) ^ seed). */
  function ParamStep(seed: u64, w: Word32.u32, shift: nat): u64
  {
    XorW(seed, IntegerHash(XorW(Shl(SignExtend(w), shift), seed)))
  }

  /** The seed after folding in the first k param words, starting from 0. */
  function ParamSeed(v: seq<Word32.u32>, k: nat): u64
    requires k <= |v|
  {
    if k == 0 then 0 else ParamStep(ParamSeed(v, k - 1), v[k - 1], ShiftFor(k - 1))
  }

  /** The fold over the param words, as the seeder's loop computes it. */
  method ParamFold(v: seq<Word32.u32>) returns (seed: u64)
    ensures seed == ParamSeed(v, |v|)
  {
    hide ParamStep;
    seed := 0;
    var shift := 32;
    for i := 0 to |v|
      invariant seed == ParamSeed(v, i)
      invariant shift == 32 - ShiftFor(i)
    {
      shift := 32 - shift;
      seed := ParamStep(seed, v[i], shift);
    }
  }

  // ---------------------------------------------------------------------
  // What the seeders leave in the state

  /** seed_array_non_zero_int's result for an n-word state. */
  function SeedArrayResult(storage: seq<Word32.u32>, param: seq<Word32.u32>, n: nat): (r: seq<u64>)
    requires |storage| == 2 * n
    ensures |r| == n
  {
    var packed := Packed(storage, n);
    if !AllZero(packed) then packed else Outputs(IntegerHash(ParamSeed(param, |param|)), n)
  }

  /** fill_array_non_zero_int's result for an n-word state, from its first 2n range elements. */
  function FillArrayResult(range: seq<int>, n: nat): (r: seq<u64>)
    requires |range| >= 2 * n
    ensures |r| == n
  {
    var packed := RangePacked(range, n);
    if !AllZero(packed) then packed else Outputs(IntegerHash(GOLDEN), n)
  }

  /** The fallback to splitmix64 outputs never leaves two or more words all zero. */
  lemma FallbackNotAllZero(s: u64, n: nat)
    requires n >= 2
    ensures !AllZero(Outputs(s, n))
  {
    OutputsNotAllZero(s, n);
  }

  /**
   * Both seeders leave a state of two or more words that is not all zero,
   * and keep the packed words themselves whenever one of them is non-zero.
   */
  lemma SeedArrayNotAllZero(storage: seq<Word32.u32>, param: seq<Word32.u32>, n: nat)
    requires |storage| == 2 * n && n >= 2
    ensures !AllZero(SeedArrayResult(storage, param, n))
    ensures !AllZero(Packed(storage, n)) ==> SeedArrayResult(storage, param, n) == Packed(storage, n)
  {
    if AllZero(Packed(storage, n)) {
      FallbackNotAllZero(IntegerHash(ParamSeed(param, |param|)), n);
    }
  }

  lemma FillArrayNotAllZero(range: seq<int>, n: nat)
    requires |range| >= 2 * n && n >= 2
    ensures !AllZero(FillArrayResult(range, n))
    ensures !AllZero(RangePacked(range, n)) ==> FillArrayResult(range, n) == RangePacked(range, n)
  {
    if AllZero(RangePacked(range, n)) {
      FallbackNotAllZero(IntegerHash(GOLDEN), n);
    }
  }

  /**
   * Packing two 32-bit words per state word loses nothing: the packed words
   * are all zero exactly when every input word is.
   */
  lemma PackedAllZero(words: seq<Word32.u32>, n: nat)
    requires |words| >= 2 * n
    ensures AllZero(Packed(words, n)) <==> forall i :: 0 <= i < 2 * n ==> words[i] == 0
  {
    var p := Packed(words, n);
    if AllZero(p) {
      forall i | 0 <= i < 2 * n
        ensures words[i] == 0
      {
        var j := i / 2;
        assert p[j] == 0;
      }
    }
    if forall i :: 0 <= i < 2 * n ==> words[i] == 0 {
      forall j | 0 <= j < n
        ensures p[j] == 0
      {
        assert words[2 * j] == 0 && words[2 * j + 1] == 0;
      }
    }
  }

  // ---------------------------------------------------------------------
  // The seeders, writing into the state array

  /** std::generate(x, gen): x[j] receives the j-th output of gen. */
  method GenerateInto(x: array<u64>, gen: SplitMix64)
    modifies x, gen
    ensures x[..] == Outputs(old(gen.s), x.Length)
    ensures gen.s == Advance(old(gen.s), x.Length)
  {
    hide Outputs, Hash;
    var s0 := gen.s;
    for j := 0 to x.Length
      invariant x[..j] + Outputs(gen.s, x.Length - j) == Outputs(s0, x.Length)
      invariant gen.s == Advance(s0, j)
    {
      ghost var before := gen.s;
      var r := gen.Call();
      OutputsStep(before, x.Length - j);
      x[j] := r;
      assert x[..j + 1] == x[..j] + [r];
    }
    assert x[..] == x[..x.Length];
  }

  /**
   * The packing loop of seed_array_non_zero_int: packs word j into x[j]
   * for every j, noting whether a non-zero word was met.
   */
  method PackInto(words: seq<Word32.u32>, x: array<u64>) returns (nonZero: bool)
    requires |words| >= 2 * x.Length
    modifies x
    ensures x[..] == Packed(words, x.Length)
    ensures nonZero <==> !AllZero(x[..])
  {
    nonZero := false;
    for j := 0 to x.Length
      invariant x[..j] == Packed(words, x.Length)[..j]
      invariant nonZero <==> !AllZero(x[..j])
    {
      x[j] := Pack(words[2 * j], words[2 * j + 1]);
      if x[j] != 0 {
        nonZero := true;
      }
      assert x[..j + 1] == x[..j] + [x[j]];
    }
    assert x[..] == x[..x.Length];
  }

  /**
   * The packing loop of fill_array_non_zero_int: word j from range elements
   * 2j and 2j + 1, noting whether a non-zero word was met.
   */
  method RangePackInto(range: seq<int>, x: array<u64>) returns (nonZero: bool)
    requires |range| >= 2 * x.Length
    modifies x
    ensures x[..] == RangePacked(range, x.Length)
    ensures nonZero <==> !AllZero(x[..])
  {
    hide OrW, Shl;
    nonZero := false;
    for j := 0 to x.Length
      invariant x[..j] == RangePacked(range, x.Length)[..j]
      invariant nonZero <==> !AllZero(x[..j])
    {
      x[j] := Cast64(range[2 * j]);
      x[j] := OrW(x[j], Shl(Cast64(range[2 * j + 1]), 32));
      assert x[j] == RangeWord(range[2 * j], range[2 * j + 1]);
      if x[j] != 0 {
        nonZero := true;
      }
      assert x[..j + 1] == x[..j] + [x[j]];
    }
    assert x[..] == x[..x.Length];
  }

  /** detail::seed_array_non_zero_int. */
  method SeedArrayNonZero(storage: seq<Word32.u32>, param: seq<Word32.u32>, x: array<u64>)
    requires |storage| == 2 * x.Length
    modifies x
    ensures x[..] == SeedArrayResult(storage, param, x.Length)
  {
    var nonZero := PackInto(storage, x);
    if !nonZero {
      var seed := ParamFold(param);
      var gen := new SplitMix64(seed);
      GenerateInto(x, gen);
    }
  }

  /** How fill_array_non_zero_int ends: words consumed, or std::invalid_argument. */
  datatype FillOutcome = Consumed(count: nat) | NotEnoughElements

  /** detail::fill_array_non_zero_int over the elements of the range [first, last). */
  method FillArrayNonZero(range: seq<int>, x: array<u64>) returns (r: FillOutcome)
    modifies x
    ensures |range| < 2 * x.Length ==> r == NotEnoughElements && x[..] == old(x[..])
    ensures |range| >= 2 * x.Length ==>
      r == Consumed(2 * x.Length) && x[..] == FillArrayResult(range, x.Length)
  {
    if |range| < 2 * x.Length {
      return NotEnoughElements;
    }
    var nonZero := RangePackInto(range, x);
    if !nonZero {
      var gen := new SplitMix64.Default();
      GenerateInto(x, gen);
    }
    r := Consumed(2 * x.Length);
  }
}
