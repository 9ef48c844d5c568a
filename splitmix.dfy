/**
 * splitmix64 (xoroshiro128plus/xoroshiro.hpp): a 64-bit counter stepped by
 * the golden-ratio increment, whose outputs are the counter's values passed
 * through a hash; and xoroshiro_integer_hash, the bijection that seeds it
 * from a scalar.  Each hash maps zero, and only zero, to zero, and the
 * integer hash is inverted by the same fold-multiply-fold with the inverse
 * multiplier.
 */
module SplitMix {
  import opened Word64

  /** splitmix64::hash: two xor-shift-multiply rounds, then a fold by 31. */
  function Hash(z: u64): u64
  {
    XorShr(Mul64(XorShr(Mul64(XorShr(z, 30), SM_MUL_1), 27), SM_MUL_2), 31)
  }

  /** The hash maps zero, and only zero, to zero: every stage does. */
  lemma HashZero(z: u64)
    ensures Hash(z) == 0 <==> z == 0
  {
    InverseConstants();
    var a := XorShr(z, 30);
    var b := Mul64(a, SM_MUL_1);
    var c := XorShr(b, 27);
    var d := Mul64(c, SM_MUL_2);
    XorShrZero(z, 30);
    MulZero(a, SM_MUL_1, SM_INV_1);
    XorShrZero(b, 27);
    MulZero(c, SM_MUL_2, SM_INV_2);
    XorShrZero(d, 31);
  }

  /** The inverse of Hash, undoing its rounds in reverse order. */
  function UnHash(h: u64): u64
  {
    UnXorShr(Mul64(UnXorShr(Mul64(UnXorShr(h, 31), SM_INV_2), 27), SM_INV_1), 30)
  }

  /** The hash is injective: UnHash recovers its argument. */
  lemma UnHashHash(z: u64)
    ensures UnHash(Hash(z)) == z
  {
    hide *;
    InverseConstants();
    var a := XorShr(z, 30);
    var b := Mul64(a, SM_MUL_1);
    var c := XorShr(b, 27);
    var d := Mul64(c, SM_MUL_2);
    HashUnfold(z);
    UnHashUnfold(XorShr(d, 31));
    UnXorShrInverse(d, 31);
    MulCancel(c, SM_MUL_2, SM_INV_2);
    UnXorShrInverse(b, 27);
    MulCancel(a, SM_MUL_1, SM_INV_1);
    UnXorShrInverse(z, 30);
  }

  lemma HashUnfold(z: u64)
    ensures Hash(z) == XorShr(Mul64(XorShr(Mul64(XorShr(z, 30), SM_MUL_1), 27), SM_MUL_2), 31)
  {
  }

  lemma UnHashUnfold(h: u64)
    ensures UnHash(h) == UnXorShr(Mul64(UnXorShr(Mul64(UnXorShr(h, 31), SM_INV_2), 27), SM_INV_1), 30)
  {
  }

  /** detail::xoroshiro_integer_hash: a fold by 32, a multiply, and a fold by 32. */
  function IntegerHash(x: u64): u64
  {
    Fold32(Mul64(Fold32(x), HASH_MUL))
  }

  /** The inverse of IntegerHash: the same rounds with the inverse multiplier. */
  function UnIntegerHash(y: u64): u64
  {
    Fold32(Mul64(Fold32(y), HASH_INV))
  }

  /** The integer hash is a bijection of the 64-bit words. */
  lemma IntegerHashInverse(x: u64)
    ensures UnIntegerHash(IntegerHash(x)) == x
    ensures IntegerHash(UnIntegerHash(x)) == x
  {
    InverseConstants();
    Fold32Twice(Mul64(Fold32(x), HASH_MUL));
    MulCancel(Fold32(x), HASH_MUL, HASH_INV);
    Fold32Twice(x);
    Fold32Twice(Mul64(Fold32(x), HASH_INV));
    MulCancel(Fold32(x), HASH_INV, HASH_MUL);
  }

  lemma IntegerHashZero(x: u64)
    ensures IntegerHash(x) == 0 <==> x == 0
  {
    InverseConstants();
    XorShrZero(x, 32);
    MulZero(Fold32(x), HASH_MUL, HASH_INV);
    XorShrZero(Mul64(Fold32(x), HASH_MUL), 32);
  }

  /** The counter after n steps. */
  function Advance(s: u64, n: nat): u64
    decreases n
  {
    if n == 0 then s else Add64(Advance(s, n - 1), GOLDEN)
  }

  /** The n outputs a splitmix64 with counter s produces, in order. */
  function Outputs(s: u64, n: nat): (r: seq<u64>)
    ensures |r| == n
    decreases n
  {
    if n == 0 then [] else [Hash(Add64(s, GOLDEN))] + Outputs(Add64(s, GOLDEN), n - 1)
  }

  /** The first output, then the outputs of the counter one step on. */
  lemma OutputsStep(s: u64, n: nat)
    requires n > 0
    ensures Outputs(s, n) == Outputs(s, 1) + Outputs(Advance(s, 1), n - 1)
  {
  }

  lemma {:induction false} AdvanceFirst(s: u64, n: nat)
    ensures Advance(Add64(s, GOLDEN), n) == Advance(s, n + 1)
    decreases n
  {
    if n > 0 {
      AdvanceFirst(s, n - 1);
    }
  }

  /** Output k is the hash of the counter after k + 1 steps. */
  lemma {:induction false} OutputsAt(s: u64, n: nat, k: nat)
    requires k < n
    decreases k
    ensures Outputs(s, n)[k] == Hash(Advance(s, k + 1))
  {
    if k > 0 {
      OutputsAt(Add64(s, GOLDEN), n - 1, k - 1);
      AdvanceFirst(s, k);
    }
  }

  /**
   * Two consecutive outputs are never both zero: that needs both counters
   * to be zero, and they differ by the (non-zero) increment.
   */
  lemma OutputsNotAllZero(s: u64, n: nat)
    requires n >= 2
    ensures Outputs(s, n)[0] != 0 || Outputs(s, n)[1] != 0
  {
    OutputsAt(s, n, 0);
    OutputsAt(s, n, 1);
    HashZero(Advance(s, 1));
    HashZero(Advance(s, 2));
  }

  /** Two counters give the same next output exactly when they are equal. */
  lemma SameNextOutput(s: u64, t: u64)
    ensures Outputs(s, 1) == Outputs(t, 1) <==> s == t
  {
    if Outputs(s, 1) == Outputs(t, 1) {
      hide Hash;
      assert Outputs(s, 1)[0] == Hash(Add64(s, GOLDEN));
      assert Outputs(t, 1)[0] == Hash(Add64(t, GOLDEN));
      UnHashHash(Add64(s, GOLDEN));
      UnHashHash(Add64(t, GOLDEN));
      AddCancel(s, t, GOLDEN);
    }
  }

  class SplitMix64 {
    var s: u64

    /** seed(value): the counter is the integer hash of the value. */
    constructor (value: u64)
      ensures s == IntegerHash(value)
    {
      s := IntegerHash(value);
    }

    /** The default seed is the golden-ratio increment itself. */
    constructor Default()
      ensures s == IntegerHash(GOLDEN)
    {
      s := IntegerHash(GOLDEN);
    }

    method Seed(value: u64)
      modifies this
      ensures s == IntegerHash(value)
    {
      s := IntegerHash(value);
    }

    method Next() returns (r: u64)
      modifies this
      ensures s == Advance(old(s), 1) && r == s
    {
      s := Add64(s, GOLDEN);
      r := s;
    }

    /** operator(): the hash of the advanced counter. */
    method Call() returns (r: u64)
      modifies this
      ensures s == Advance(old(s), 1)
      ensures [r] == Outputs(old(s), 1)
    {
      var v := Next();
      r := Hash(v);
    }

    method Discard(z: nat)
      modifies this
      ensures s == Advance(old(s), z)
    {
      var k := 0;
      while k < z
        invariant k <= z && s == Advance(old(s), k)
      {
        var _ := Next();
        k := k + 1;
      }
    }

    function Equals(other: SplitMix64): (r: bool)
      reads this, other
      ensures r <==> Outputs(s, 1) == Outputs(other.s, 1)
    {
      SameNextOutput(s, other.s);
      s == other.s
    }

    static function Min(): u64 { 0 }
    static function Max(): u64 { 0xFFFF_FFFF_FFFF_FFFF }
  }
}
