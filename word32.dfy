/**
 * Unsigned 32-bit words (the seed sequence's IntRep) as integers in
 * [0, 2^32), with wrapping addition, subtraction and multiplication, a
 * bitwise exclusive or, and the xorshift by half a word.  The algebra the
 * seed sequence relies on is proved here: powers, the multiplicative
 * inverse of every odd word, and that the half-word xorshift undoes itself.
 */
module Word32 {
  import opened Bits

  const MOD: int := 0x1_0000_0000

  /** The largest word; the seed sequence writes it IntRep(-1). */
  const ALL_ONES: nat := 0xFFFF_FFFF

  type u32 = x: int | 0 <= x < 0x1_0000_0000

  /** Conversion of any integer to IntRep (C++ unsigned conversion is modular). */
  function Trunc(v: int): (r: u32)
    ensures v % MOD == r
  {
    v % MOD
  }

  function Add(a: u32, b: u32): u32 { (a + b) % MOD }

  function Sub(a: u32, b: u32): u32 { (a - b) % MOD }

  function Mul(a: u32, b: u32): u32 { (a * b) % MOD }

  predicate Odd(x: int) { x % 2 == 1 }

  // ---------------------------------------------------------------------
  // Powers of two

  lemma Exp2Values()
    ensures Exp2(16) == 0x1_0000 && Exp2(32) == MOD && Exp2(34) == 4 * MOD
  {
    assert Exp2(2) == 4;
    hide Exp2;
    Exp2Add(2, 2);
    assert Exp2(4) == 16;
    Exp2Add(4, 4);
    assert Exp2(8) == 256;
    Exp2Add(8, 8);
    assert Exp2(16) == 0x1_0000;
    Exp2Add(16, 16);
    Exp2Add(32, 2);
  }

  // ---------------------------------------------------------------------
  // Reduction modulo 2^32

  /** Reducing modulo 2^32 keeps the parity. */
  lemma ModKeepsParity(v: int)
    ensures (v % MOD) % 2 == v % 2
  {
    var q, r := v / MOD, v % MOD;
    var h, b := r / 2, r % 2;
    assert v == q * MOD + r;
    assert r == 2 * h + b;
    assert q * MOD == 2 * (q * 0x8000_0000);
    DivModUnique(v, 2, q * 0x8000_0000 + h, b);
  }

  // ---------------------------------------------------------------------
  // Ring laws of the wrapping operations

  lemma MulComm(a: u32, b: u32)
    ensures Mul(a, b) == Mul(b, a)
  {
    assert a * b == b * a;
  }

  lemma MulOne(a: u32)
    ensures Mul(a, 1) == a && Mul(1, a) == a
  {
  }

  lemma AssocMod(a: int, b: int, c: int)
    ensures (a * ((b * c) % MOD)) % MOD == (((a * b) % MOD) * c) % MOD
  {
    ModMulRight(a, b * c, MOD);
    ModMulLeft(a * b, c, MOD);
    assert a * (b * c) == (a * b) * c;
  }

  lemma MulAssoc(a: u32, b: u32, c: u32)
    ensures Mul(a, Mul(b, c)) == Mul(Mul(a, b), c)
  {
    AssocMod(a, b, c);
  }

  lemma SubThenAdd(a: u32, b: u32)
    ensures Add(Sub(a, b), b) == a
  {
    var q := (a - b) / MOD;
    assert a - b == q * MOD + Sub(a, b);
    assert Sub(a, b) + b == a + (-q) * MOD;
    ModAddMultiple(-q, a, MOD);
  }

  lemma AddThenSub(a: u32, b: u32)
    ensures Sub(Add(a, b), b) == a
  {
    var q := (a + b) / MOD;
    assert a + b == q * MOD + Add(a, b);
    assert Add(a, b) - b == a + (-q) * MOD;
    ModAddMultiple(-q, a, MOD);
  }

  lemma OddProduct(a: int, b: int)
    requires Odd(a) && Odd(b)
    ensures Odd((a * b) % MOD)
  {
    var i, j := a / 2, b / 2;
    assert a * b == 2 * (2 * i * j + i + j) + 1 by {
      assert a == 2 * i + 1 && b == 2 * j + 1;
    }
    ModKeepsParity(a * b);
  }

  lemma OddMul(a: u32, b: u32)
    requires Odd(a) && Odd(b)
    ensures Odd(Mul(a, b))
  {
    OddProduct(a, b);
  }

  // ---------------------------------------------------------------------
  // Powers

  /** x^n modulo 2^32. */
  function Pow(x: u32, n: nat): u32
  {
    if n == 0 then 1 else Mul(x, Pow(x, n - 1))
  }

  /** x^n over the integers, without wrapping. */
  function IPow(x: int, n: nat): int
  {
    if n == 0 then 1 else x * IPow(x, n - 1)
  }

  lemma {:induction false} PowIPow(x: u32, n: nat)
    ensures Pow(x, n) == IPow(x, n) % MOD
  {
    if n > 0 {
      PowIPow(x, n - 1);
      ModMulRight(x, IPow(x, n - 1), MOD);
    }
  }

  lemma {:induction false} IPowAdd(x: int, a: nat, b: nat)
    ensures IPow(x, a + b) == IPow(x, a) * IPow(x, b)
  {
    if a > 0 {
      IPowAdd(x, a - 1, b);
      assert IPow(x, a + b) == x * IPow(x, a - 1 + b);
      assert x * (IPow(x, a - 1) * IPow(x, b)) == (x * IPow(x, a - 1)) * IPow(x, b);
    }
  }

  lemma {:induction false} PowAdd(x: u32, a: nat, b: nat)
    ensures Pow(x, a + b) == Mul(Pow(x, a), Pow(x, b))
  {
    if a == 0 {
      MulOne(Pow(x, b));
    } else {
      PowAdd(x, a - 1, b);
      MulAssoc(x, Pow(x, a - 1), Pow(x, b));
    }
  }

  lemma {:induction false} OddPow(x: u32, n: nat)
    requires Odd(x)
    ensures Odd(Pow(x, n))
  {
    if n > 0 {
      OddPow(x, n - 1);
      OddMul(x, Pow(x, n - 1));
    }
  }

  lemma SquareStep(y: int, m0: int, e: int)
    requires y == 1 + m0 * (2 * e)
    ensures y * y == 1 + (m0 * (1 + m0 * e)) * (4 * e)
  {
  }

  lemma OddSquare(x: int) returns (r: int)
    requires Odd(x)
    ensures x * x == 1 + 8 * r
  {
    var n := x / 2;
    assert x == 2 * n + 1;
    if n % 2 == 0 {
      r := (n / 2) * (n + 1);
      assert n == 2 * (n / 2);
    } else {
      r := n * ((n + 1) / 2);
      assert n + 1 == 2 * ((n + 1) / 2);
    }
    assert x * x == 1 + 4 * (n * (n + 1));
  }

  lemma OddPowTwoBase(x: int) returns (m: int)
    requires Odd(x)
    ensures IPow(x, Exp2(1)) == 1 + m * Exp2(3)
  {
    assert Exp2(1) == 2;
    assert IPow(x, 1) == x;
    assert IPow(x, 2) == x * x;
    assert Exp2(3) == 8;
    m := OddSquare(x);
  }

  lemma OddPowTwoStep(x: int, k: nat, m0: int) returns (m: int)
    requires k >= 2
    requires IPow(x, Exp2(k - 1)) == 1 + m0 * Exp2(k + 1)
    ensures IPow(x, Exp2(k)) == 1 + m * Exp2(k + 2)
  {
    var e := Exp2(k);
    var y := IPow(x, Exp2(k - 1));
    IPowAdd(x, Exp2(k - 1), Exp2(k - 1));
    assert Exp2(k) == Exp2(k - 1) + Exp2(k - 1);
    assert IPow(x, e) == y * y;
    assert Exp2(k + 1) == 2 * e;
    assert Exp2(k + 2) == 4 * e;
    SquareStep(y, m0, e);
    m := m0 * (1 + m0 * e);
  }

  /** An odd x raised to 2^k is 1 plus a multiple of 2^(k+2), for k >= 1. */
  lemma {:induction false} OddPowTwoPow(x: int, k: nat) returns (m: int)
    requires Odd(x) && k >= 1
    ensures IPow(x, Exp2(k)) == 1 + m * Exp2(k + 2)
  {
    if k == 1 {
      m := OddPowTwoBase(x);
    } else {
      var m0 := OddPowTwoPow(x, k - 1);
      m := OddPowTwoStep(x, k, m0);
    }
  }

  /** Every odd word has multiplicative order dividing 2^32. */
  lemma OddOrder(x: u32)
    requires Odd(x)
    ensures Pow(x, Exp2(32)) == 1
  {
    var m := OddPowTwoPow(x, 32);
    Exp2Values();
    PowIPow(x, Exp2(32));
    assert IPow(x, Exp2(32)) == (4 * m) * MOD + 1;
    ModAddMultiple(4 * m, 1, MOD);
  }

  /** x^(2^32 - 1) is the multiplicative inverse of every odd word x. */
  lemma InverseOfOdd(x: u32)
    requires Odd(x)
    ensures Mul(Pow(x, ALL_ONES), x) == 1 && Mul(x, Pow(x, ALL_ONES)) == 1
  {
    OddOrder(x);
    Exp2Values();
    PowAdd(x, ALL_ONES, 1);
    MulOne(x);
    assert Pow(x, 1) == x;
    MulComm(x, Pow(x, ALL_ONES));
  }

  /** Multiplying by c and then by c's inverse gives back the word. */
  lemma MulCancel(a: u32, c: u32)
    requires Odd(c)
    ensures Mul(Mul(a, c), Pow(c, ALL_ONES)) == a
    ensures Mul(Mul(a, Pow(c, ALL_ONES)), c) == a
  {
    InverseOfOdd(c);
    MulAssoc(a, c, Pow(c, ALL_ONES));
    MulAssoc(a, Pow(c, ALL_ONES), c);
    MulOne(a);
  }

  lemma {:induction false} PowOfOrderMultiple(x: u32, q: nat)
    requires Odd(x)
    ensures Pow(x, q * MOD) == 1
  {
    if q > 0 {
      PowOfOrderMultiple(x, q - 1);
      assert q * MOD == MOD + (q - 1) * MOD;
      PowAdd(x, MOD, (q - 1) * MOD);
      OddOrder(x);
      Exp2Values();
    }
  }

  /** For an odd base only the exponent modulo 2^32 matters. */
  lemma ExponentWraps(x: u32, n: nat)
    requires Odd(x)
    ensures Pow(x, n % MOD) == Pow(x, n)
  {
    var q, r := n / MOD, n % MOD;
    var m: nat := q * MOD;
    assert n == m + r;
    PowAdd(x, m, r);
    PowOfOrderMultiple(x, q);
    assert Pow(x, m) == 1;
    MulOne(Pow(x, r));
  }

  // ---------------------------------------------------------------------
  // Exclusive or and the half-word xorshift

  /** value ^ other on IntRep. */
  function XorWord(a: u32, b: u32): u32
  {
    Exp2Values();
    XorBound(a, b, 32);
    Xor(a, b)
  }

  /** Exclusive or with the same word twice gives the word back. */
  lemma XorWordTwice(a: u32, b: u32)
    ensures XorWord(XorWord(a, b), b) == a
  {
    XorSelfInverse(a, b);
  }

  /** value ^ (value >> 16): the xorshift by half a word (XSHIFT). */
  function XorShift(a: u32): u32
  {
    XorWord(a, a / 0x1_0000)
  }

  /** The half-word xorshift is its own inverse. */
  lemma XorShiftTwice(a: u32)
    ensures XorShift(XorShift(a)) == a
  {
    Exp2Values();
    FoldTwice(a, 16);
  }
}
