/**
 * xor_combine_engine (xoroshiro/xor_combine.hpp): two base engines whose
 * values are shifted left by s1 and s2 and combined by exclusive or.  The
 * base engines are template parameters of the source; here each is given
 * by a record of functions on its state (Base), and the properties that
 * need more of a base than its type, such as discard being repeated calls
 * or equality meaning equal futures, take that as a precondition.
 *
 * The two integer hashes of the scalar seeding are bijections, so the
 * chain of seeds handed to the bases is injective in the seed value.
 */
module XorCombine {
  import opened Bits
  import Word32
  import opened Word64
  import SplitMix

  // ---------------------------------------------------------------------
  // The integer hashes

  const HASH32_MUL: Word32.u32 := 0x45D_9F3B
  /** The inverse of HASH32_MUL modulo 2^32. */
  const HASH32_INV: Word32.u32 := 0x119D_E1F3

  /** xor_combine_integer_hash(uint32_t): x = ((x >> 16) ^ x) * 0x45D9F3B; (x >> 16) ^ x. */
  function Hash32(x: Word32.u32): Word32.u32
  {
    Word32.XorShift(Word32.Mul(Word32.XorShift(x), HASH32_MUL))
  }

  function UnHash32(y: Word32.u32): Word32.u32
  {
    Word32.XorShift(Word32.Mul(Word32.XorShift(y), HASH32_INV))
  }

  /** Multiplying by HASH32_MUL and by HASH32_INV cancel out, in either order. */
  lemma Hash32MulCancel(a: Word32.u32)
    ensures Word32.Mul(Word32.Mul(a, HASH32_MUL), HASH32_INV) == a
    ensures Word32.Mul(Word32.Mul(a, HASH32_INV), HASH32_MUL) == a
  {
    assert Word32.Mul(HASH32_MUL, HASH32_INV) == 1 && Word32.Mul(HASH32_INV, HASH32_MUL) == 1;
    Word32.MulAssoc(a, HASH32_MUL, HASH32_INV);
    Word32.MulAssoc(a, HASH32_INV, HASH32_MUL);
    Word32.MulOne(a);
  }

  /** The 32-bit hash is a bijection of the 32-bit words. */
  lemma Hash32Inverse(x: Word32.u32)
    ensures UnHash32(Hash32(x)) == x && Hash32(UnHash32(x)) == x
  {
    hide Word32.Mul;
    var a := Word32.Mul(Word32.XorShift(x), HASH32_MUL);
    Word32.XorShiftTwice(a);
    Hash32MulCancel(Word32.XorShift(x));
    Word32.XorShiftTwice(x);
    var b := Word32.Mul(Word32.XorShift(x), HASH32_INV);
    Word32.XorShiftTwice(b);
    Hash32MulCancel(Word32.XorShift(x));
  }

  /** result_type: the bases' words are 32 or 64 bits wide. */
  datatype Width = W32 | W64

  function Modulus(w: Width): (r: nat)
    ensures r == Exp2(if w.W32? then 32 else 64)
  {
    Word32.Exp2Values();
    Exp2Values64();
    if w.W32? then Word32.MOD else MOD64
  }

  /**
   * xor_combine_integer_hash for the word width: the 64-bit overload is
   * xoroshiro_integer_hash, the same fold-multiply-fold with the same
   * multiplier.
   */
  function HashOf(w: Width, x: nat): (r: nat)
    requires x < Modulus(w)
    ensures r < Modulus(w)
  {
    if w.W32? then Hash32(x) else SplitMix.IntegerHash(x)
  }

  function UnHashOf(w: Width, y: nat): (r: nat)
    requires y < Modulus(w)
    ensures r < Modulus(w)
  {
    if w.W32? then UnHash32(y) else SplitMix.UnIntegerHash(y)
  }

  lemma HashOfInverse(w: Width, x: nat)
    requires x < Modulus(w)
    ensures UnHashOf(w, HashOf(w, x)) == x
  {
    if w.W32? {
      Hash32Inverse(x);
    } else {
      SplitMix.IntegerHashInverse(x);
    }
  }

  /** v + 1U in result_type. */
  function Inc(w: Width, x: nat): (r: nat)
    ensures r < Modulus(w)
  {
    (x + 1) % Modulus(w)
  }

  lemma IncInjective(w: Width, a: nat, b: nat)
    requires a < Modulus(w) && b < Modulus(w) && Inc(w, a) == Inc(w, b)
    ensures a == b
  {
    var m := Modulus(w);
    if a + 1 < m {
      DivModUnique(a + 1, m, 0, a + 1);
    } else {
      DivModUnique(a + 1, m, 1, 0);
    }
    if b + 1 < m {
      DivModUnique(b + 1, m, 0, b + 1);
    } else {
      DivModUnique(b + 1, m, 1, 0);
    }
  }

  /** One link of the seed chain, x -> hash(x + 1): a bijection. */
  function Link(w: Width, x: nat): (r: nat)
    requires x < Modulus(w)
    ensures r < Modulus(w)
  {
    HashOf(w, Inc(w, x))
  }

  lemma LinkInjective(w: Width, a: nat, b: nat)
    requires a < Modulus(w) && b < Modulus(w) && Link(w, a) == Link(w, b)
    ensures a == b
  {
    HashOfInverse(w, Inc(w, a));
    HashOfInverse(w, Inc(w, b));
    IncInjective(w, a, b);
  }

  /** The seeds seed(v) hands to the two bases. */
  datatype Seeds = Seeds(first: nat, second: nat)

  /**
   * seed(v): s1 = h(v + 1), s2 = h(s1 + 1); base1 gets h(s1 + 1) and base2
   * gets h(s2 + 1).
   */
  function ScalarSeeds(w: Width, v: nat): (r: Seeds)
    requires v < Modulus(w)
    ensures r.first < Modulus(w) && r.second < Modulus(w)
  {
    var s1 := HashOf(w, Inc(w, v));
    var s2 := HashOf(w, Inc(w, s1));
    Seeds(HashOf(w, Inc(w, s1)), HashOf(w, Inc(w, s2)))
  }

  /**
   * base1's seed is s2 itself, the second link of the chain from v, and
   * base2's is the link after it.
   */
  lemma ScalarSeedChain(w: Width, v: nat)
    requires v < Modulus(w)
    ensures ScalarSeeds(w, v).first == Link(w, Link(w, v))
    ensures ScalarSeeds(w, v).second == Link(w, ScalarSeeds(w, v).first)
  {
  }

  /** Different seed values give both bases different seeds. */
  lemma ScalarSeedsInjective(w: Width, v: nat, u: nat)
    requires v < Modulus(w) && u < Modulus(w) && v != u
    ensures ScalarSeeds(w, v).first != ScalarSeeds(w, u).first
    ensures ScalarSeeds(w, v).second != ScalarSeeds(w, u).second
  {
    hide HashOf;
    ScalarSeedChain(w, v);
    ScalarSeedChain(w, u);
    if ScalarSeeds(w, v).first == ScalarSeeds(w, u).first || ScalarSeeds(w, v).second == ScalarSeeds(w, u).second {
      if ScalarSeeds(w, v).second == ScalarSeeds(w, u).second {
        LinkInjective(w, ScalarSeeds(w, v).first, ScalarSeeds(w, u).first);
      }
      LinkInjective(w, Link(w, v), Link(w, u));
      LinkInjective(w, v, u);
    }
  }

  // ---------------------------------------------------------------------
  // The base engines

  /** What operator() of a base gives: its new state and the value. */
  datatype Drawn<E> = Drawn(next: E, value: nat)

  /** What seed(first, last) of a base gives: the words used, or invalid_argument. */
  datatype Seeded<E> = Seeded(state: E, used: nat) | Failed(state: E)

  /**
   * A base engine type: its operations on its state E.  seedSeq is
   * seed(boost::random::seed_seq(first, last)), the seeding from the
   * default seed sequence type over a range of 32-bit words.
   */
  datatype Base<!E> = Base(
    call: E -> Drawn<E>,
    discard: (E, nat) -> E,
    equal: (E, E) -> bool,
    seedDefault: E,
    seedValue: nat -> E,
    seedSeq: seq<nat> -> E,
    seedRange: seq<nat> -> Seeded<E>,
    min: nat,
    max: nat)

  /** The next n values of a base. */
  function Draws<E>(b: Base<E>, e: E, n: nat): (r: seq<nat>)
    ensures |r| == n
    decreases n
  {
    if n == 0 then [] else [b.call(e).value] + Draws(b, b.call(e).next, n - 1)
  }

  /** A base whose discard(z) skips exactly its next z values. */
  ghost predicate DiscardIsCalls<E(!new)>(b: Base<E>)
  {
    forall e, z: nat, n: nat :: Draws(b, b.discard(e, z), n) == Draws(b, e, z + n)[z..]
  }

  /** A base whose == means "will produce identical sequences". */
  ghost predicate EqualMeansSame<E(!new)>(b: Base<E>)
  {
    forall e, f :: b.equal(e, f) ==> b.call(e).value == b.call(f).value && b.equal(b.call(e).next, b.call(f).next)
  }

  /** A base whose range seeding uses no more words than it is given. */
  ghost predicate UsesAtMost<E(!new)>(b: Base<E>)
  {
    forall ws :: b.seedRange(ws).Seeded? ==> b.seedRange(ws).used <= |ws|
  }

  // ---------------------------------------------------------------------
  // Combining

  /**
   * The template arguments: s1, s2, URNG1 and URNG2, with w the width of
   * URNG1::result_type (the engine's result_type) and w2 that of
   * URNG2::result_type.
   */
  datatype Setup<!E1, !E2> = Setup(w: Width, w2: Width, shift1: nat, shift2: nat, base1: Base<E1>, base2: Base<E2>)

  /** x << k in a word of width w: the bits shifted past the top are lost. */
  function Shl(w: Width, x: nat, k: nat): (r: nat)
    ensures r < Modulus(w)
  {
    (x * Exp2(k)) % Modulus(w)
  }

  /**
   * (r1 << s1) ^ (r2 << s2) returned as result_type: each value is shifted
   * in its own base's type, so a 32-bit URNG2 loses its top s2 bits even
   * when result_type is 64 bits wide, and the exclusive or is narrowed to
   * result_type when URNG2's type is the wider one.
   */
  function Combine<E1, E2>(st: Setup<E1, E2>, r1: nat, r2: nat): (r: nat)
    ensures r < Modulus(st.w)
  {
    Xor(Shl(st.w, r1, st.shift1), Shl(st.w2, r2, st.shift2)) % Modulus(st.w)
  }

  /**
   * With a 64-bit URNG1, a 32-bit URNG2 and s2 = 8, the top byte of
   * URNG2's value never reaches the combined value.
   */
  lemma NarrowSecondBaseLosesTopBits<E1, E2>(st: Setup<E1, E2>)
    requires st.w == W64 && st.w2 == W32 && st.shift1 == 0 && st.shift2 == 8
    ensures Combine(st, 0, 0xFF00_0000) == 0
  {
    assert Exp2(2) == 4;
    Exp2Add(2, 2);
    Exp2Add(4, 4);
    assert Exp2(8) == 256;
    assert 0xFF00_0000 * 256 == 0xFF * Word32.MOD;
    assert Shl(W32, 0xFF00_0000, 8) == 0;
    assert Shl(W64, 0, 0) == 0;
  }

  /**
   * When both bases' values have result_type's width, no narrowing is
   * needed: the combined value is the exclusive or of the two shifted
   * values.
   */
  lemma CombineSameWidth<E1, E2>(st: Setup<E1, E2>, r1: nat, r2: nat)
    requires st.w == st.w2
    ensures Combine(st, r1, r2) == Xor(Shl(st.w, r1, st.shift1), Shl(st.w, r2, st.shift2))
  {
    var m := Modulus(st.w);
    XorBound(Shl(st.w, r1, st.shift1), Shl(st.w, r2, st.shift2), if st.w.W32? then 32 else 64);
    DivModUnique(Xor(Shl(st.w, r1, st.shift1), Shl(st.w, r2, st.shift2)), m, 0, Xor(Shl(st.w, r1, st.shift1), Shl(st.w, r2, st.shift2)));
  }

  /** The next n values of the combined engine with base states e1 and e2. */
  function Outputs<E1, E2>(st: Setup<E1, E2>, e1: E1, e2: E2, n: nat): (r: seq<nat>)
    ensures |r| == n
    decreases n
  {
    if n == 0 then [] else
      [Combine(st, st.base1.call(e1).value, st.base2.call(e2).value)]
      + Outputs(st, st.base1.call(e1).next, st.base2.call(e2).next, n - 1)
  }

  /** Value k of the combined engine combines value k of each base. */
  lemma {:induction false} OutputsPointwise<E1, E2>(st: Setup<E1, E2>, e1: E1, e2: E2, n: nat)
    ensures forall k :: 0 <= k < n ==>
      Outputs(st, e1, e2, n)[k] == Combine(st, Draws(st.base1, e1, n)[k], Draws(st.base2, e2, n)[k])
  {
    hide Combine;
    if n > 0 {
      OutputsPointwise(st, st.base1.call(e1).next, st.base2.call(e2).next, n - 1);
    }
  }

  /**
   * When both bases discard by skipping values, discard(z) on the
   * combined engine skips exactly its next z values.
   */
  lemma DiscardSkips<E1(!new), E2(!new)>(st: Setup<E1, E2>, e1: E1, e2: E2, z: nat, n: nat)
    requires DiscardIsCalls(st.base1) && DiscardIsCalls(st.base2)
    ensures Outputs(st, st.base1.discard(e1, z), st.base2.discard(e2, z), n) == Outputs(st, e1, e2, z + n)[z..]
  {
    hide Combine;
    var d1, d2 := st.base1.discard(e1, z), st.base2.discard(e2, z);
    OutputsPointwise(st, d1, d2, n);
    OutputsPointwise(st, e1, e2, z + n);
    assert Draws(st.base1, d1, n) == Draws(st.base1, e1, z + n)[z..];
    assert Draws(st.base2, d2, n) == Draws(st.base2, e2, z + n)[z..];
    forall k | 0 <= k < n
      ensures Outputs(st, d1, d2, n)[k] == Outputs(st, e1, e2, z + n)[z + k]
    {
      assert Draws(st.base1, d1, n)[k] == Draws(st.base1, e1, z + n)[z + k];
      assert Draws(st.base2, d2, n)[k] == Draws(st.base2, e2, z + n)[z + k];
    }
  }

  /**
   * Engines whose bases compare equal pairwise produce identical sequences,
   * when the bases' == means that for them.
   */
  lemma {:induction false} EqualSameOutputs<E1(!new), E2(!new)>(st: Setup<E1, E2>, e1: E1, e2: E2, f1: E1, f2: E2, n: nat)
    requires EqualMeansSame(st.base1) && EqualMeansSame(st.base2)
    requires st.base1.equal(e1, f1) && st.base2.equal(e2, f2)
    ensures Outputs(st, e1, e2, n) == Outputs(st, f1, f2, n)
  {
    hide Combine, EqualMeansSame;
    if n > 0 {
      EqualStep(st.base1, e1, f1);
      EqualStep(st.base2, e2, f2);
      EqualSameOutputs(st, st.base1.call(e1).next, st.base2.call(e2).next, st.base1.call(f1).next, st.base2.call(f2).next, n - 1);
    }
  }

  /** Pairwise-equal bases give engines with the same future, value for value. */
  lemma EqualSameFutures<E1(!new), E2(!new)>(st: Setup<E1, E2>, e1: E1, e2: E2, f1: E1, f2: E2)
    ensures EqualMeansSame(st.base1) && EqualMeansSame(st.base2) && st.base1.equal(e1, f1) && st.base2.equal(e2, f2) ==>
      forall n: nat :: Outputs(st, e1, e2, n) == Outputs(st, f1, f2, n)
  {
    if EqualMeansSame(st.base1) && EqualMeansSame(st.base2) && st.base1.equal(e1, f1) && st.base2.equal(e2, f2) {
      forall n: nat
        ensures Outputs(st, e1, e2, n) == Outputs(st, f1, f2, n)
      {
        EqualSameOutputs(st, e1, e2, f1, f2, n);
      }
    }
  }

  lemma EqualStep<E(!new)>(b: Base<E>, e: E, f: E)
    requires EqualMeansSame(b) && b.equal(e, f)
    ensures b.call(e).value == b.call(f).value && b.equal(b.call(e).next, b.call(f).next)
  {
  }

  /** min(): the smaller of the bases' minima. */
  function Min<E1, E2>(st: Setup<E1, E2>): (r: nat)
    ensures r <= st.base1.min && r <= st.base2.min
    ensures r == st.base1.min || r == st.base2.min
  {
    if st.base1.min <= st.base2.min then st.base1.min else st.base2.min
  }

  /** max(), as written: the larger of URNG1::min() and URNG2::max(). */
  function Max<E1, E2>(st: Setup<E1, E2>): (r: nat)
    ensures r >= st.base1.min && r >= st.base2.max
    ensures r == st.base1.min || r == st.base2.max
  {
    if st.base1.min >= st.base2.max then st.base1.min else st.base2.max
  }

  /** max() is never below min(). */
  lemma MinAtMostMax<E1, E2>(st: Setup<E1, E2>)
    ensures Min(st) <= Max(st)
  {
  }

  /** How seed(first, last) ends: the words used, or std::invalid_argument. */
  datatype RangeOutcome = Consumed(count: nat) | NotEnoughElements

  class Engine<E1(!new), E2(!new)> {
    const st: Setup<E1, E2>
    /** _rng1. */
    var rng1: E1
    /** _rng2. */
    var rng2: E2

    /** The default constructor: both bases default-constructed. */
    constructor (st: Setup<E1, E2>)
      ensures this.st == st && rng1 == st.base1.seedDefault && rng2 == st.base2.seedDefault
    {
      this.st := st;
      rng1 := st.base1.seedDefault;
      rng2 := st.base2.seedDefault;
    }

    /** xor_combine_engine(rng1, rng2): copies of the two bases. */
    constructor FromBases(st: Setup<E1, E2>, rng1: E1, rng2: E2)
      ensures this.st == st && this.rng1 == rng1 && this.rng2 == rng2
    {
      this.st := st;
      this.rng1 := rng1;
      this.rng2 := rng2;
    }

    /** xor_combine_engine(v): seed(v). */
    constructor FromValue(st: Setup<E1, E2>, v: nat)
      requires v < Modulus(st.w)
      ensures this.st == st
      ensures rng1 == st.base1.seedValue(ScalarSeeds(st.w, v).first)
      ensures rng2 == st.base2.seedValue(ScalarSeeds(st.w, v).second)
    {
      this.st := st;
      rng1 := st.base1.seedDefault;
      rng2 := st.base2.seedDefault;
      new;
      Seed(v);
    }

    /** seed(): both bases reseeded with their defaults. */
    method SeedDefault()
      modifies this
      ensures rng1 == st.base1.seedDefault && rng2 == st.base2.seedDefault
    {
      rng1 := st.base1.seedDefault;
      rng2 := st.base2.seedDefault;
    }

    /** seed(v): each base seeded with its link of the hash chain from v. */
    method Seed(v: nat)
      requires v < Modulus(st.w)
      modifies this
      ensures rng1 == st.base1.seedValue(ScalarSeeds(st.w, v).first)
      ensures rng2 == st.base2.seedValue(ScalarSeeds(st.w, v).second)
    {
      var s1 := HashOf(st.w, Inc(st.w, v));
      var s2 := HashOf(st.w, Inc(st.w, s1));
      rng1 := st.base1.seedValue(HashOf(st.w, Inc(st.w, s1)));
      rng2 := st.base2.seedValue(HashOf(st.w, Inc(st.w, s2)));
    }

    /** operator(): each base called exactly once, the values combined. */
    method Call() returns (r: nat)
      modifies this
      ensures rng1 == st.base1.call(old(rng1)).next && rng2 == st.base2.call(old(rng2)).next
      ensures [r] == Outputs(st, old(rng1), old(rng2), 1)
    {
      var d1 := st.base1.call(rng1);
      rng1 := d1.next;
      var d2 := st.base2.call(rng2);
      rng2 := d2.next;
      r := Combine(st, d1.value, d2.value);
    }

    /** discard(z): the same z forwarded to both bases. */
    method Discard(z: nat)
      modifies this
      ensures rng1 == st.base1.discard(old(rng1), z) && rng2 == st.base2.discard(old(rng2), z)
    {
      rng1 := st.base1.discard(rng1, z);
      rng2 := st.base2.discard(rng2, z);
    }

    /**
     * operator==: both pairs of bases equal, which for bases whose ==
     * means equal futures makes the two engines produce identical
     * sequences.
     */
    function Equals(other: Engine<E1, E2>): (r: bool)
      reads this, other
      requires other.st == st
      ensures r <==> st.base1.equal(rng1, other.rng1) && st.base2.equal(rng2, other.rng2)
      ensures r && EqualMeansSame(st.base1) && EqualMeansSame(st.base2) ==>
        forall n: nat :: Outputs(st, rng1, rng2, n) == Outputs(st, other.rng1, other.rng2, n)
    {
      EqualSameFutures(st, rng1, rng2, other.rng1, other.rng2);
      st.base1.equal(rng1, other.rng1) && st.base2.equal(rng2, other.rng2)
    }

    /**
     * seed(first, last): base1 seeded from the range, then base2 from what
     * base1 left; invalid_argument from either ends the seeding.
     */
    method SeedRange(words: seq<nat>) returns (r: RangeOutcome)
      requires UsesAtMost(st.base1) && UsesAtMost(st.base2)
      modifies this
      ensures rng1 == st.base1.seedRange(words).state
      ensures st.base1.seedRange(words).Failed? ==> r == NotEnoughElements && rng2 == old(rng2)
      ensures st.base1.seedRange(words).Seeded? ==>
        var k1 := st.base1.seedRange(words).used;
        var r2 := st.base2.seedRange(words[k1..]);
        rng2 == r2.state &&
        r == (if r2.Seeded? then Consumed(k1 + r2.used) else NotEnoughElements)
      ensures r.Consumed? ==> r.count <= |words|
    {
      var r1 := st.base1.seedRange(words);
      rng1 := r1.state;
      if r1.Failed? {
        return NotEnoughElements;
      }
      var r2 := st.base2.seedRange(words[r1.used..]);
      rng2 := r2.state;
      if r2.Failed? {
        return NotEnoughElements;
      }
      r := Consumed(r1.used + r2.used);
    }

    /**
     * forward_array_int<SeedSeq>: a SeedSeq over the first half of the
     * words seeds base1 and one over the rest base2.  seed1 and seed2 are
     * what base1.seed and base2.seed make of a SeedSeq built from a range.
     */
    method ForwardArrayInt(storage: seq<nat>, seed1: seq<nat> -> E1, seed2: seq<nat> -> E2)
      modifies this
      ensures rng1 == seed1(storage[..|storage| / 2])
      ensures rng2 == seed2(storage[|storage| / 2..])
    {
      var middle := |storage| / 2;
      rng1 := seed1(storage[..middle]);
      rng2 := seed2(storage[middle..]);
    }

    /**
     * seed(seq): the 2 * seq.size() words seq.generate gives, forwarded in
     * halves through the argument's own SeedSeq type, whose seedings of
     * the bases are seed1 and seed2.  `generated` stands for the result of
     * any seed sequence's generate, not only seed_seq_fe's.
     */
    method SeedFromSeedSeq(generated: seq<nat>, seed1: seq<nat> -> E1, seed2: seq<nat> -> E2)
      requires |generated| % 2 == 0
      modifies this
      ensures rng1 == seed1(generated[..|generated| / 2])
      ensures rng2 == seed2(generated[|generated| / 2..])
      ensures |generated[..|generated| / 2]| == |generated[|generated| / 2..]|
    {
      ForwardArrayInt(generated, seed1, seed2);
    }

    /**
     * seed(gen): sixteen values of gen, each kept as a 32-bit word, forwarded
     * eight to each base through the default boost::random::seed_seq.
     */
    method SeedFromGenerator(draws: seq<nat>)
      requires |draws| == 16
      modifies this
      ensures rng1 == st.base1.seedSeq(Low32(draws[..8]))
      ensures rng2 == st.base2.seedSeq(Low32(draws[8..]))
    {
      var storage := Low32(draws);
      ForwardArrayInt(storage, st.base1.seedSeq, st.base2.seedSeq);
      assert storage[..8] == Low32(draws[..8]) && storage[8..] == Low32(draws[8..]);
    }
  }

  /** Each value converted to std::uint_least32_t. */
  function Low32(xs: seq<nat>): (r: seq<nat>)
    ensures |r| == |xs| && forall k :: 0 <= k < |xs| ==> r[k] == xs[k] % Word32.MOD
  {
    seq(|xs|, k requires 0 <= k < |xs| => xs[k] % Word32.MOD)
  }

  /** The combined engine's next n values, drawn by n calls of operator(). */
  method CallN<E1(!new), E2(!new)>(x: Engine<E1, E2>, n: nat) returns (rs: seq<nat>)
    modifies x
    ensures rs == Outputs(x.st, old(x.rng1), old(x.rng2), n)
  {
    rs := [];
    for k := 0 to n
      invariant rs + Outputs(x.st, x.rng1, x.rng2, n - k) == Outputs(x.st, old(x.rng1), old(x.rng2), n)
    {
      var r := x.Call();
      rs := rs + [r];
    }
  }
}
