/**
 * The 128-bit engines of xoroshiro128plus/xoroshiro.hpp as one state
 * machine: the four xoroshiro128+ classes (plain, shixo, shixostar and
 * shixostarshixo), which share their step, discard, jump, seeding,
 * equality and serialisation and differ only in the function that turns
 * the pre-step sum into an output, and xorshift128plus, which has the same
 * shape with its own step and jump polynomial.
 *
 * The central invariant: a step maps the all-zero state, and only it, to
 * the all-zero state, so a non-zero seeding stays non-zero forever.
 */
module Xoroshiro128 {
  import opened Bits
  import Word32
  import opened Word64
  import opened SplitMix
  import opened ArraySeeding

  /** The five engines. */
  datatype Variant =
    | Xoroshiro128Plus
    | Xoroshiro128PlusShixo
    | Xoroshiro128PlusShixoStar
    | Xoroshiro128PlusShixoStarShixo
    | Xorshift128Plus

  /** The two state words _s[0], _s[1]. */
  datatype Pair = Pair(s0: u64, s1: u64)

  const ZERO: Pair := Pair(0, 0)

  function XorPair(a: Pair, b: Pair): Pair
  {
    Pair(XorW(a.s0, b.s0), XorW(a.s1, b.s1))
  }

  // ---------------------------------------------------------------------
  // The steps

  /**
   * xoroshiro128+ next(): s1 ^= s0; s0 = rotl(s0, 55) ^ s1 ^ (s1 << 14);
   * s1 = rotl(s1, 36).
   */
  function XoroStep(p: Pair): Pair
  {
    var t := XorW(p.s1, p.s0);
    Pair(XorW(XorW(Rotl(p.s0, 55), t), Shl(t, 14)), Rotl(t, 36))
  }

  /**
   * xorshift128+ next(): the new s0 is the old s1, and with a = s0 ^ (s0 << 23)
   * the new s1 is a ^ s1 ^ (a >> 18) ^ (s1 >> 5).
   */
  function XorshiftStep(p: Pair): Pair
  {
    var a := XorShl(p.s0, 23);
    Pair(p.s1, XorW(XorW(XorW(a, p.s1), Shr(a, 18)), Shr(p.s1, 5)))
  }

  function Step(v: Variant, p: Pair): Pair
  {
    if v == Xorshift128Plus then XorshiftStep(p) else XoroStep(p)
  }

  lemma StepUnfold(v: Variant, p: Pair)
    ensures v == Xorshift128Plus ==> Step(v, p) == XorshiftStep(p)
    ensures v != Xorshift128Plus ==> Step(v, p) == XoroStep(p)
    ensures XoroStep(p) ==
      Pair(XorW(XorW(Rotl(p.s0, 55), XorW(p.s1, p.s0)), Shl(XorW(p.s1, p.s0), 14)), Rotl(XorW(p.s1, p.s0), 36))
    ensures XorshiftStep(p) ==
      Pair(p.s1, XorW(XorW(XorW(XorShl(p.s0, 23), p.s1), Shr(XorShl(p.s0, 23), 18)), Shr(p.s1, 5)))
  {
  }

  /** The state after n steps. */
  function StepN(v: Variant, p: Pair, n: nat): Pair
  {
    if n == 0 then p else Step(v, StepN(v, p, n - 1))
  }

  lemma XoroStepZero(p: Pair)
    ensures XoroStep(p) == ZERO <==> p == ZERO
  {
    var t := XorW(p.s1, p.s0);
    RotlZero(t, 36);
    XorEqZero(p.s1, p.s0);
    RotlZero(p.s0, 55);
    XorWZero(Rotl(p.s0, 55));
    XorWZero(0);
    if t == 0 {
      assert Shl(t, 14) == 0;
    }
  }

  lemma XorshiftStepZero(p: Pair)
    ensures XorshiftStep(p) == ZERO <==> p == ZERO
  {
    var a := XorShl(p.s0, 23);
    XorShlZero(p.s0, 23);
    if p.s1 == 0 {
      XorWZero(a);
      assert Shr(0, 5) == 0;
      XorWZero(XorW(a, Shr(a, 18)));
      XorShrZero(a, 18);
    }
  }

  /** A step maps the all-zero state, and only it, to the all-zero state. */
  lemma StepZero(v: Variant, p: Pair)
    ensures Step(v, p) == ZERO <==> p == ZERO
  {
    if v == Xorshift128Plus {
      XorshiftStepZero(p);
    } else {
      XoroStepZero(p);
    }
  }

  /** So a non-zero state stays non-zero however far it is stepped. */
  lemma {:induction false} NonZeroForever(v: Variant, p: Pair, n: nat)
    requires p != ZERO
    ensures StepN(v, p, n) != ZERO
  {
    hide Step;
    if n > 0 {
      NonZeroForever(v, p, n - 1);
      StepZero(v, StepN(v, p, n - 1));
    }
  }

  lemma {:induction false} StepNAdd(v: Variant, p: Pair, m: nat, n: nat)
    ensures StepN(v, StepN(v, p, m), n) == StepN(v, p, m + n)
  {
    hide Step;
    if n > 0 {
      StepNAdd(v, p, m, n - 1);
    }
  }

  // ---------------------------------------------------------------------
  // Outputs

  /** operator() returns a function of _s[0] + _s[1], taken before the step. */
  function Sum(p: Pair): u64
  {
    Add64(p.s0, p.s1)
  }

  function Output(v: Variant, r: u64): u64
  {
    match v
    case Xoroshiro128Plus => r
    case Xorshift128Plus => r
    case Xoroshiro128PlusShixo => Fold32(r)
    case Xoroshiro128PlusShixoStar => Mul64(Fold32(r), HASH_MUL)
    case Xoroshiro128PlusShixoStarShixo => Fold32(Mul64(Fold32(r), HASH_MUL))
  }

  /** Recovers the sum from an output. */
  function UnOutput(v: Variant, y: u64): u64
  {
    match v
    case Xoroshiro128Plus => y
    case Xorshift128Plus => y
    case Xoroshiro128PlusShixo => Fold32(y)
    case Xoroshiro128PlusShixoStar => Fold32(Mul64(y, HASH_INV))
    case Xoroshiro128PlusShixoStarShixo => UnIntegerHash(y)
  }

  /** Every output function is a bijection of the sum: no variant loses information. */
  lemma OutputInverse(v: Variant, r: u64)
    ensures UnOutput(v, Output(v, r)) == r
  {
    match v
    case Xoroshiro128Plus =>
    case Xorshift128Plus =>
    case Xoroshiro128PlusShixo =>
      Fold32Twice(r);
    case Xoroshiro128PlusShixoStar =>
      InverseConstants();
      MulCancel(Fold32(r), HASH_MUL, HASH_INV);
      Fold32Twice(r);
    case Xoroshiro128PlusShixoStarShixo =>
      IntegerHashInverse(r);
  }

  /** The shixostarshixo output is the integer hash of the sum. */
  lemma ShixoStarShixoIsIntegerHash(r: u64)
    ensures Output(Xoroshiro128PlusShixoStarShixo, r) == IntegerHash(r)
  {
  }

  /** The outputs of the next n calls from state p. */
  function Outputs128(v: Variant, p: Pair, n: nat): (r: seq<u64>)
    ensures |r| == n
    decreases n
  {
    if n == 0 then [] else [Output(v, Sum(p))] + Outputs128(v, Step(v, p), n - 1)
  }

  // ---------------------------------------------------------------------
  // Seeding

  /** seed(value): _s = (hash(value + G), hash(value + 2G)), with no warm-up. */
  function ScalarSeed(value: u64): Pair
  {
    var s := Add64(value, GOLDEN);
    Pair(Hash(s), Hash(Add64(s, GOLDEN)))
  }

  /** The scalar seed is the first two outputs of a splitmix64 with counter value, and never zero. */
  lemma ScalarSeedNonZero(value: u64)
    ensures [ScalarSeed(value).s0, ScalarSeed(value).s1] == Outputs(value, 2)
    ensures ScalarSeed(value) != ZERO
  {
    OutputsNotAllZero(value, 2);
  }

  const WARMUP: nat := 8

  // ---------------------------------------------------------------------
  // Jump

  /** The jump polynomials: two words each. */
  function JumpWords(v: Variant): (u64, u64)
  {
    if v == Xorshift128Plus then (0x8A5C_D789_635D_2DFF, 0x121F_D215_5C47_2F96)
    else (0xBEAC_0467_EBA5_FACB, 0xD86B_048B_86AA_9922)
  }

  /** Bit i of the 128-bit jump polynomial, word 0 first. */
  predicate JumpBit(v: Variant, i: nat)
  {
    if i < 64 then Bit(JumpWords(v).0, i) else Bit(JumpWords(v).1, i - 64)
  }

  /**
   * The XOR of the states StepN(p, j), j < i, whose bit j is set: the
   * accumulator of jump() after its first i next() calls.
   */
  function JumpAcc(v: Variant, p: Pair, i: nat): Pair
  {
    if i == 0 then ZERO
    else if JumpBit(v, i - 1) then XorPair(JumpAcc(v, p, i - 1), StepN(v, p, i - 1))
    else JumpAcc(v, p, i - 1)
  }

  /** z jumps. */
  function JumpN(v: Variant, p: Pair, z: nat): Pair
  {
    if z == 0 then p else JumpAcc(v, JumpN(v, p, z - 1), 128)
  }

  /** The XOR of no states is zero: a jump polynomial with no bit below i adds nothing. */
  lemma {:induction false} JumpAccOfZero(v: Variant, i: nat)
    ensures JumpAcc(v, ZERO, i) == ZERO
  {
    hide Step, StepN, XorW, JumpBit;
    if i > 0 {
      JumpAccOfZero(v, i - 1);
      ZeroStaysZero(v, i - 1);
      XorWZero(0);
    }
  }

  lemma {:induction false} ZeroStaysZero(v: Variant, n: nat)
    ensures StepN(v, ZERO, n) == ZERO
  {
    hide Step;
    if n > 0 {
      ZeroStaysZero(v, n - 1);
      StepZero(v, ZERO);
    }
  }

  // ---------------------------------------------------------------------
  // The engine

  class Engine {
    const variant: Variant
    /** _s. */
    const s: array<u64>

    predicate Valid()
      reads this
    {
      s.Length == 2
    }

    function State(): Pair
      reads this, s
      requires Valid()
    {
      Pair(s[0], s[1])
    }

    /** The constructor from a value; the default constructor passes default_seed = 1. */
    constructor (variant: Variant, value: u64)
      ensures Valid() && fresh(s) && this.variant == variant
      ensures State() == ScalarSeed(value)
    {
      this.variant := variant;
      var a := new u64[2];
      var t := Add64(value, GOLDEN);
      a[0] := Hash(t);
      a[1] := Hash(Add64(t, GOLDEN));
      s := a;
    }

    /** seed(value). */
    method Seed(value: u64)
      requires Valid()
      modifies s
      ensures State() == ScalarSeed(value)
    {
      var t := Add64(value, GOLDEN);
      s[0] := Hash(t);
      t := Add64(t, GOLDEN);
      s[1] := Hash(t);
    }

    /** next(). */
    method Next()
      requires Valid()
      modifies s
      ensures State() == Step(variant, old(State()))
    {
      hide Step, XoroStep, XorshiftStep, XorW, Rotl, Shl, Shr, XorShl;
      StepUnfold(variant, State());
      if variant == Xorshift128Plus {
        var s1 := s[0];
        s[0] := s[1];
        s1 := XorShl(s1, 23);
        s[1] := XorW(XorW(XorW(s1, s[0]), Shr(s1, 18)), Shr(s[0], 5));
      } else {
        var s0, s1 := s[0], s[1];
        s1 := XorW(s1, s0);
        s0 := Rotl(s0, 55);
        s0 := XorW(s0, s1);
        s0 := XorW(s0, Shl(s1, 14));
        s1 := Rotl(s1, 36);
        s[0], s[1] := s0, s1;
      }
    }

    /** operator(): the output of the sum taken before the step. */
    method Call() returns (r: u64)
      requires Valid()
      modifies s
      ensures State() == Step(variant, old(State()))
      ensures [r] == Outputs128(variant, old(State()), 1)
    {
      var sum := Add64(s[0], s[1]);
      Next();
      r := Output(variant, sum);
    }

    /** discard(z): z steps, no output computed. */
    method Discard(z: nat)
      requires Valid()
      modifies s
      ensures State() == StepN(variant, old(State()), z)
    {
      for k := 0 to z
        invariant State() == StepN(variant, old(State()), k)
      {
        Next();
      }
    }

    /**
     * seed(seq): seed_array_non_zero_int, then warmup(), which is discard(8).
     * The seed sequence is given by its generate output over four words and
     * its param words.
     */
    method SeedFromSeq(storage: seq<Word32.u32>, param: seq<Word32.u32>)
      requires Valid() && |storage| == 4
      modifies s
      ensures State() == StepN(variant, PairOf(SeedArrayResult(storage, param, 2)), WARMUP)
      ensures State() != ZERO
    {
      hide StepN, Step, SeedArrayResult;
      SeedArrayNonZero(storage, param, s);
      SeedArrayNotAllZero(storage, param, 2);
      ghost var seeded := State();
      assert seeded == PairOf(SeedArrayResult(storage, param, 2));
      Discard(WARMUP);
      NonZeroForever(variant, seeded, WARMUP);
    }

    /**
     * seed(first, last): fill_array_non_zero_int, then discard(8); with fewer
     * than four words it throws std::invalid_argument and the state is unchanged.
     */
    method SeedFromRange(range: seq<int>) returns (r: FillOutcome)
      requires Valid()
      modifies s
      ensures |range| < 4 ==> r == NotEnoughElements && State() == old(State())
      ensures |range| >= 4 ==> r == Consumed(4)
      ensures |range| >= 4 ==> State() == StepN(variant, PairOf(FillArrayResult(range, 2)), WARMUP)
      ensures |range| >= 4 ==> State() != ZERO
    {
      hide StepN, Step, FillArrayResult;
      r := FillArrayNonZero(range, s);
      if r.Consumed? {
        FillArrayNotAllZero(range, 2);
        ghost var seeded := State();
        assert seeded == PairOf(FillArrayResult(range, 2));
        Discard(WARMUP);
        NonZeroForever(variant, seeded, WARMUP);
      } else {
        assert s[..] == old(s[..]);
      }
    }

    /**
     * jump(z): z times, 128 steps accumulating the XOR of the states at the
     * set bits of the jump polynomial, each bit read before its step, and
     * then the accumulator as the new state.
     */
    method Jump(z: nat)
      requires Valid()
      modifies s
      ensures State() == JumpN(variant, old(State()), z)
    {
      for k := 0 to z
        invariant State() == JumpN(variant, old(State()), k)
      {
        JumpOnce();
      }
    }

    method JumpOnce()
      requires Valid()
      modifies s
      ensures State() == JumpAcc(variant, old(State()), 128)
    {
      ghost var start := State();
      var (w0, w1) := JumpWords(variant);
      var a0, a1 := 0, 0;
      for b := 0 to 64
        invariant State() == StepN(variant, start, b)
        invariant Pair(a0, a1) == JumpAcc(variant, start, b)
      {
        if Bit(w0, b) {
          a0, a1 := XorW(a0, s[0]), XorW(a1, s[1]);
        }
        Next();
      }
      for b := 0 to 64
        invariant State() == StepN(variant, start, 64 + b)
        invariant Pair(a0, a1) == JumpAcc(variant, start, 64 + b)
      {
        if Bit(w1, b) {
          a0, a1 := XorW(a0, s[0]), XorW(a1, s[1]);
        }
        Next();
      }
      s[0], s[1] := a0, a1;
    }

    /** operator==: both words equal. */
    function Equals(other: Engine): (r: bool)
      reads this, s, other, other.s
      requires Valid() && other.Valid() && variant == other.variant
      ensures r ==> forall n :: Outputs128(variant, State(), n) == Outputs128(other.variant, other.State(), n)
      ensures r <==> State() == other.State()
    {
      s[0] == other.s[0] && s[1] == other.s[1]
    }

    /** operator<<: the two words, _s[0] first. */
    function Write(): (r: seq<u64>)
      reads this, s
      requires Valid()
      ensures |r| == 2 && PairOf(r) == State()
    {
      [s[0], s[1]]
    }

    /** operator>>: reads the two words back. */
    method Read(words: seq<u64>)
      requires Valid() && |words| == 2
      modifies s
      ensures State() == PairOf(words)
    {
      s[0] := words[0];
      s[1] := words[1];
    }

    static function Min(): u64 { 0 }

    static function Max(): u64 { MAX64 }
  }

  /** The state a two-word array holds. */
  function PairOf(x: seq<u64>): Pair
    requires |x| == 2
  {
    Pair(x[0], x[1])
  }
}
