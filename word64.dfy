/**
 * Unsigned 64-bit words (std::uint64_t) as integers in [0, 2^64), with
 * wrapping addition and multiplication, exclusive or, shifts and left
 * rotations.  The facts the engines build on are proved here: every
 * building block of their steps and hashes maps zero, and only zero, to
 * zero; a product with an odd constant is undone by the product with that
 * constant's inverse; and the fold by 32 bits is its own inverse.
 */
module Word64 {
  import opened Bits

  const MOD64: int := 0x1_0000_0000_0000_0000

  type u64 = x: int | 0 <= x < 0x1_0000_0000_0000_0000

  /** UINT64_MAX. */
  const MAX64: u64 := 0xFFFF_FFFF_FFFF_FFFF

  /** The golden-ratio increment of splitmix64. */
  const GOLDEN: u64 := 0x9E37_79B9_7F4A_7C15

  /** The two multipliers of splitmix64::hash, and their inverses mod 2^64. */
  const SM_MUL_1: u64 := 0xBF58_476D_1CE4_E5B9
  const SM_INV_1: u64 := 0x96DE_1B17_3F11_9089
  const SM_MUL_2: u64 := 0x94D0_49BB_1331_11EB
  const SM_INV_2: u64 := 0x3196_42B2_D24D_8EC3

  /** The multiplier of the integer hash and of the *star outputs, and its inverse. */
  const HASH_MUL: u64 := 0x1AEC_8052_9999_0163
  const HASH_INV: u64 := 0xCDFB_859A_3DD0_884B

  /** The output multiplier of xorshift1024*, and its inverse. */
  const STAR_MUL: u64 := 0x1066_89D4_5497_FDB5
  const STAR_INV: u64 := 0xBB91_F78B_DAC4_C89D

  lemma Exp2Values64()
    ensures Exp2(32) == 0x1_0000_0000 && Exp2(64) == MOD64
  {
    assert Exp2(2) == 4;
    hide Exp2;
    Exp2Add(2, 2);
    assert Exp2(4) == 16;
    Exp2Add(4, 4);
    assert Exp2(8) == 256;
    Exp2Add(8, 8);
    assert Exp2(16) == 0x1_0000;
    Exp2Add(16, 16);
    assert Exp2(32) == 0x1_0000_0000;
    Exp2Add(32, 32);
  }

  // ---------------------------------------------------------------------
  // Wrapping arithmetic

  function Add64(a: u64, b: u64): u64 { (a + b) % MOD64 }

  function Mul64(a: u64, b: u64): u64 { (a * b) % MOD64 }

  /** Adding the same word is injective. */
  lemma AddCancel(s: u64, t: u64, c: u64)
    requires Add64(s, c) == Add64(t, c)
    ensures s == t
  {
    var qs := if s + c < MOD64 then 0 else 1;
    var qt := if t + c < MOD64 then 0 else 1;
    DivModUnique(s + c, MOD64, qs, s + c - qs * MOD64);
    DivModUnique(t + c, MOD64, qt, t + c - qt * MOD64);
  }

  /** The four multipliers times their partners are 1 modulo 2^64. */
  lemma InverseConstants()
    ensures (SM_MUL_1 * SM_INV_1) % MOD64 == 1
    ensures (SM_MUL_2 * SM_INV_2) % MOD64 == 1
    ensures (HASH_MUL * HASH_INV) % MOD64 == 1 && (HASH_INV * HASH_MUL) % MOD64 == 1
    ensures (STAR_MUL * STAR_INV) % MOD64 == 1
  {
  }

  /** Multiplying by a and then by b is the identity when a * b is 1 modulo 2^64. */
  lemma MulCancel(x: u64, a: u64, b: u64)
    requires (a * b) % MOD64 == 1
    ensures Mul64(Mul64(x, a), b) == x
  {
    ModMulLeft(x * a, b, MOD64);
    assert (x * a) * b == x * (a * b);
    ModMulRight(x, a * b, MOD64);
  }

  /** A multiplier with an inverse maps zero, and only zero, to zero. */
  lemma MulZero(x: u64, a: u64, b: u64)
    requires (a * b) % MOD64 == 1
    ensures Mul64(x, a) == 0 <==> x == 0
  {
    MulCancel(x, a, b);
  }

  // ---------------------------------------------------------------------
  // Exclusive or and shifts

  /** a ^ b. */
  function XorW(a: u64, b: u64): u64
  {
    Exp2Values64();
    XorBound(a, b, 64);
    Xor(a, b)
  }

  /** a | b: zero exactly when both words are. */
  function OrW(a: u64, b: u64): (r: u64)
    ensures r == 0 <==> a == 0 && b == 0
  {
    Exp2Values64();
    OrBound(a, b, 64);
    OrZero(a, b);
    Or(a, b)
  }

  /** x >> k. */
  function Shr(x: u64, k: nat): u64
  {
    ShiftRight(x, k)
  }

  /** x << k: the bits shifted past the top are lost. */
  function Shl(x: u64, k: nat): u64
  {
    (x * Exp2(k)) % MOD64
  }

  /** x ^ (x >> k), the right xorshift. */
  function XorShr(x: u64, k: nat): u64
  {
    XorW(x, Shr(x, k))
  }

  /** x ^ (x << k), the left xorshift. */
  function XorShl(x: u64, k: nat): u64
  {
    XorW(x, Shl(x, k))
  }

  lemma XorWZero(a: u64)
    ensures XorW(a, 0) == a && XorW(0, a) == a
  {
    XorZero(a);
    XorZeroLeft(a);
  }

  /** A right xorshift by k >= 1 maps zero, and only zero, to zero. */
  lemma XorShrZero(x: u64, k: nat)
    requires k >= 1
    ensures XorShr(x, k) == 0 <==> x == 0
  {
    hide Xor;
    XorEqZero(x, Shr(x, k));
    if x > 0 {
      Exp2Positive(k);
      DivShrinks(x, Exp2(k));
    }
  }

  /** A left xorshift by 1 <= k < 64 maps zero, and only zero, to zero. */
  lemma XorShlZero(x: u64, k: nat)
    requires 1 <= k < 64
    ensures XorShl(x, k) == 0 <==> x == 0
  {
    hide Xor, Exp2;
    XorEqZero(x, Shl(x, k));
    if x == Shl(x, k) {
      Exp2Values64();
      ShlFixedIsZero(x, k, 64);
    }
  }

  /**
   * The inverse of a right xorshift by k >= 22: y ^ (y >> k) ^ (y >> 2k),
   * which cancels every shifted copy because x >> 3k is zero.
   */
  function UnXorShr(y: u64, k: nat): u64
  {
    XorW(XorW(y, Shr(y, k)), Shr(y, 2 * k))
  }

  lemma UnXorShrInverse(x: u64, k: nat)
    requires k >= 22
    ensures UnXorShr(XorShr(x, k), k) == x
  {
    hide Xor, Exp2, ShiftRight;
    var q := Shr(x, k);
    var r := Shr(x, 2 * k);
    var y := XorShr(x, k);
    assert y == Xor(x, q);
    XorShrDist(x, q, k);
    DivDiv(x, k, k);
    assert Shr(y, k) == Xor(q, r);
    XorShrDist(x, q, 2 * k);
    DivDiv(x, k, 2 * k);
    ShiftPastTop(x, 3 * k);
    XorZero(r);
    assert Shr(y, 2 * k) == r;
    XorCancelChain(x, q, r);
  }

  /** Shifting a word right by 64 or more bits leaves zero. */
  lemma ShiftPastTop(x: u64, m: nat)
    requires m >= 64
    ensures ShiftRight(x, m) == 0
  {
    Exp2Add(64, m - 64);
    Exp2Values64();
    MulAtLeast(Exp2(m - 64), MOD64);
    DivModUnique(x, Exp2(m), 0, x);
  }

  /** (x >> 32) ^ x: folds the upper half of the word onto the lower half. */
  function Fold32(x: u64): u64
  {
    XorShr(x, 32)
  }

  /** The fold by 32 bits is its own inverse. */
  lemma Fold32Twice(x: u64)
    ensures Fold32(Fold32(x)) == x
  {
    Exp2Values64();
    FoldTwice(x, 32);
  }

  // ---------------------------------------------------------------------
  // Left rotation

  /**
   * The two halves of a rotation: x << k keeps the low 64 - k bits of x,
   * moved up by k, and x >> (64 - k) is the top k bits, so the two have no
   * bit in common and their sum stays below 2^64.
   */
  lemma RotlParts(x: u64, k: nat)
    requires 0 < k < 64
    ensures Shl(x, k) == (x % Exp2(64 - k)) * Exp2(k)
    ensures Shr(x, 64 - k) < Exp2(k)
    ensures Shl(x, k) + Shr(x, 64 - k) < MOD64
  {
    hide Exp2;
    var e, f := Exp2(64 - k), Exp2(k);
    Exp2Add(64 - k, k);
    Exp2Values64();
    assert e * f == MOD64;
    var h, l := x / e, x % e;
    assert x == h * e + l;
    assert h < f by {
      if h >= f {
        MulMono(f, h, e);
      }
    }
    assert x * f == h * MOD64 + l * f;
    MulMono(l, e - 1, f);
    assert (e - 1) * f == MOD64 - f;
    DivModUnique(x * f, MOD64, h, l * f);
  }

  /**
   * rotl(x, k) = (x << k) | (x >> (64 - k)); the two parts share no bit
   * (RotlParts), so their bitwise or is their sum.
   */
  function Rotl(x: u64, k: nat): u64
    requires 0 < k < 64
  {
    RotlParts(x, k);
    Shl(x, k) + Shr(x, 64 - k)
  }

  /** A rotation maps zero, and only zero, to zero. */
  lemma RotlZero(x: u64, k: nat)
    requires 0 < k < 64
    ensures Rotl(x, k) == 0 <==> x == 0
  {
    RotlParts(x, k);
    var e := Exp2(64 - k);
    if Rotl(x, k) == 0 {
      assert (x % e) * Exp2(k) == 0;
      assert x % e == 0;
      assert x / e == 0;
      assert x == (x / e) * e + x % e;
    }
  }

  // ---------------------------------------------------------------------
  // Bits of a word

  /** w & (1 << b) is non-zero: bit b of w is set. */
  predicate Bit(w: u64, b: nat)
  {
    ShiftRight(w, b) % 2 == 1
  }
}
