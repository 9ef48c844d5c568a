/**
 * Naturals as bit strings: powers of two, exact division facts, and the
 * bitwise exclusive or defined digit by digit, with the laws the word
 * modules build on (self-inverse, zero, commutativity, bounds, and that a
 * right shift distributes over it).
 */
module Bits {

  function Exp2(k: nat): (r: nat)
    ensures r >= 1
  {
    if k == 0 then 1 else 2 * Exp2(k - 1)
  }

  lemma {:induction false} Exp2Add(a: nat, b: nat)
    ensures Exp2(a + b) == Exp2(a) * Exp2(b)
  {
    if a > 0 {
      Exp2Add(a - 1, b);
    }
  }

  /** x >> k on naturals. */
  function ShiftRight(x: nat, k: nat): (r: nat)
    ensures r <= x
  {
    DivNat(x, Exp2(k));
    x / Exp2(k)
  }

  lemma DivNat(x: nat, d: nat)
    requires d >= 1
    ensures 0 <= x / d <= x
  {
  }

  lemma MulAtLeast(x: int, d: int)
    requires x >= 1 && d > 0
    ensures x * d >= d
  {
  }

  /** Quotient and remainder are determined by a == q * d + r with 0 <= r < d. */
  lemma DivModUnique(a: int, d: int, q: int, r: int)
    requires d > 0 && a == q * d + r && 0 <= r < d
    ensures a / d == q && a % d == r
  {
    var q', r' := a / d, a % d;
    assert a == q' * d + r';
    assert (q - q') * d == r' - r;
    if q > q' {
      MulAtLeast(q - q', d);
    } else if q < q' {
      MulAtLeast(q' - q, d);
    }
  }

  lemma ModAddMultiple(k: int, y: int, m: int)
    requires m > 0
    ensures (k * m + y) % m == y % m
  {
    DivModUnique(k * m + y, m, k + y / m, y % m);
  }

  lemma ModMulLeft(a: int, b: int, m: int)
    requires m > 0
    ensures ((a % m) * b) % m == (a * b) % m
  {
    var q := a / m;
    assert a == q * m + a % m;
    assert a * b == (q * b) * m + (a % m) * b;
    ModAddMultiple(q * b, (a % m) * b, m);
  }

  lemma ModMulRight(a: int, b: int, m: int)
    requires m > 0
    ensures (a * (b % m)) % m == (a * b) % m
  {
    ModMulLeft(b, a, m);
    assert a * (b % m) == (b % m) * a;
    assert a * b == b * a;
  }

  lemma Half(c: int, c2: int, bit: int)
    requires c == 2 * c2 + bit && 0 <= bit < 2
    ensures c / 2 == c2 && c % 2 == bit
  {
  }

  /** Bitwise exclusive or of two naturals. */
  function Xor(a: nat, b: nat): nat
    decreases a + b
  {
    if a == 0 && b == 0 then 0 else 2 * Xor(a / 2, b / 2) + (a + b) % 2
  }

  lemma XorUnfold(a: nat, b: nat)
    ensures Xor(a, b) == 2 * Xor(a / 2, b / 2) + (a + b) % 2
  {
  }

  lemma XorParity(a: int, b: int)
    ensures ((a + b) % 2 + b) % 2 == a % 2
  {
  }

  lemma {:induction false} XorSelfInverse(a: nat, b: nat)
    ensures Xor(Xor(a, b), b) == a
    decreases a + b
  {
    hide Xor;
    if a != 0 || b != 0 {
      var c := Xor(a, b);
      var c2 := Xor(a / 2, b / 2);
      XorSelfInverse(a / 2, b / 2);
      XorUnfold(a, b);
      Half(c, c2, (a + b) % 2);
      XorUnfold(c, b);
      XorParity(a, b);
      assert Xor(c, b) == 2 * (a / 2) + a % 2;
    } else {
      XorUnfold(0, 0);
    }
  }

  lemma {:induction false} XorBound(a: nat, b: nat, k: nat)
    requires a < Exp2(k) && b < Exp2(k)
    ensures Xor(a, b) < Exp2(k)
  {
    if k > 0 {
      XorBound(a / 2, b / 2, k - 1);
      XorUnfold(a, b);
    }
  }

  lemma {:induction false} XorZero(a: nat)
    ensures Xor(a, 0) == a
  {
    if a != 0 {
      XorZero(a / 2);
      XorUnfold(a, 0);
    }
  }

  lemma ParityEq(a: int, l: int, b: int)
    requires l % 2 == a % 2
    ensures (l + b) % 2 == (a + b) % 2
  {
  }

  /** Exclusive or with a value below 2^k leaves the bits from k upward alone. */
  lemma {:induction false} XorSplit(a: nat, b: nat, k: nat, q: nat, m: nat)
    requires b < Exp2(k) && m < Exp2(k) && a == q * Exp2(k) + m
    ensures Xor(a, b) == q * Exp2(k) + Xor(m, b)
  {
    if k == 0 {
      XorZero(a);
      XorZero(m);
    } else {
      var qe := q * Exp2(k - 1);
      assert q * Exp2(k) == 2 * qe;
      Half(a, qe + m / 2, m % 2);
      XorSplit(a / 2, b / 2, k - 1, q, m / 2);
      XorUnfold(a, b);
      XorUnfold(m, b);
      ParityEq(a, m, b);
    }
  }

  lemma {:induction false} XorZeroLeft(b: nat)
    ensures Xor(0, b) == b
  {
    if b != 0 {
      XorZeroLeft(b / 2);
      XorUnfold(0, b);
    }
  }

  lemma {:induction false} XorSelf(a: nat)
    ensures Xor(a, a) == 0
    decreases a
  {
    if a != 0 {
      XorSelf(a / 2);
      XorUnfold(a, a);
    }
  }

  /** The exclusive or of two naturals is zero exactly when they are equal. */
  lemma {:induction false} XorEqZero(a: nat, b: nat)
    ensures Xor(a, b) == 0 <==> a == b
    decreases a + b
  {
    if a == b {
      XorSelf(a);
    } else {
      XorUnfold(a, b);
      if (a + b) % 2 == 0 {
        XorEqZero(a / 2, b / 2);
        assert a / 2 != b / 2;
      }
    }
  }

  /** Folding the upper half of a 2k-bit value onto its lower half undoes itself. */
  lemma FoldTwice(a: nat, k: nat)
    requires ShiftRight(a, k) < Exp2(k)
    ensures ShiftRight(Xor(a, ShiftRight(a, k)), k) == ShiftRight(a, k)
    ensures Xor(Xor(a, ShiftRight(a, k)), ShiftRight(Xor(a, ShiftRight(a, k)), k)) == a
  {
    hide Xor, Exp2;
    var e := Exp2(k);
    var h, l := a / e, a % e;
    assert a == h * e + l;
    var x := FoldLow(a, k, h, l);
    var y := Xor(a, h);
    var _ := FoldLow(y, k, h, x);
    XorSelfInverse(l, h);
  }

  /** Folding h onto a value whose upper part is h leaves the upper part alone. */
  lemma FoldLow(a: nat, k: nat, h: nat, l: nat) returns (x: nat)
    requires h < Exp2(k) && l < Exp2(k) && a == h * Exp2(k) + l
    ensures x == Xor(l, h) && x < Exp2(k)
    ensures Xor(a, h) == h * Exp2(k) + x
    ensures Xor(a, h) / Exp2(k) == h && Xor(a, h) % Exp2(k) == x
  {
    hide Xor;
    XorSplit(a, h, k, h, l);
    XorBound(l, h, k);
    x := Xor(l, h);
    DivModUnique(Xor(a, h), Exp2(k), h, x);
  }

  /** Doubling the dividend and the divisor doubles the remainder. */
  lemma DoubleMod(w: int, e: int)
    requires e > 0
    ensures (2 * w) % (2 * e) == 2 * (w % e)
  {
    DivModUnique(2 * w, 2 * e, w / e, 2 * (w % e));
  }

  /**
   * A value below 2^m that a left shift by k >= 1 modulo 2^m leaves
   * unchanged is zero: the shift clears the lowest bit, so every bit in
   * turn must be zero.
   */
  lemma {:induction false} ShlFixedIsZero(x: nat, k: nat, m: nat)
    requires k >= 1 && x < Exp2(m)
    requires x == (x * Exp2(k)) % Exp2(m)
    ensures x == 0
  {
    if m > 0 {
      var e := Exp2(m - 1);
      var w := x * Exp2(k - 1);
      assert x * Exp2(k) == 2 * w;
      DoubleMod(w, e);
      var y := x / 2;
      assert x == 2 * (w % e) && y == w % e;
      assert w == y * Exp2(k) by {
        assert x == 2 * y;
      }
      ShlFixedIsZero(y, k, m - 1);
    }
  }

  /** Dividing a positive value by at least two makes it strictly smaller. */
  lemma DivShrinks(x: nat, d: nat)
    requires x > 0 && d >= 2
    ensures x / d < x
  {
    var q := x / d;
    assert x == q * d + x % d;
    assert q * d == q * (d - 2) + 2 * q;
    NonNegProduct(q, d - 2);
  }

  lemma NonNegProduct(a: nat, b: nat)
    ensures a * b >= 0
  {
  }

  lemma Exp2Zero()
    ensures Exp2(0) == 1
  {
  }

  lemma Exp2One()
    ensures Exp2(1) == 2
  {
  }

  lemma Exp2Positive(k: nat)
    requires k >= 1
    ensures Exp2(k) >= 2
  {
  }

  lemma {:induction false} XorComm(a: nat, b: nat)
    ensures Xor(a, b) == Xor(b, a)
    decreases a + b
  {
    if a != 0 || b != 0 {
      XorComm(a / 2, b / 2);
      XorUnfold(a, b);
      XorUnfold(b, a);
    }
  }

  lemma ParityAssoc(a: int, b: int, c: int, x: int, y: int)
    requires x % 2 == (a + b) % 2 && y % 2 == (b + c) % 2
    ensures (x + c) % 2 == (a + y) % 2
  {
  }

  lemma {:induction false} XorAssoc(a: nat, b: nat, c: nat)
    ensures Xor(Xor(a, b), c) == Xor(a, Xor(b, c))
    decreases a + b + c
  {
    hide Xor;
    if a != 0 || b != 0 || c != 0 {
      assert a / 2 + b / 2 + c / 2 < a + b + c;
      XorAssoc(a / 2, b / 2, c / 2);
      var x, y := Xor(a, b), Xor(b, c);
      XorUnfold(a, b);
      XorUnfold(b, c);
      Half(x, Xor(a / 2, b / 2), (a + b) % 2);
      Half(y, Xor(b / 2, c / 2), (b + c) % 2);
      XorUnfold(x, c);
      XorUnfold(a, y);
      ParityAssoc(a, b, c, x, y);
      assert Xor(x / 2, c / 2) == Xor(a / 2, y / 2);
    } else {
      XorUnfold(0, 0);
    }
  }

  /** ((p ^ q) ^ (q ^ r)) ^ r == p. */
  lemma XorCancelChain(p: nat, q: nat, r: nat)
    ensures Xor(Xor(Xor(p, q), Xor(q, r)), r) == p
  {
    hide Xor;
    XorAssoc(p, q, Xor(q, r));
    XorAssoc(q, q, r);
    XorSelf(q);
    XorZeroLeft(r);
    XorSelfInverse(p, r);
  }

  /** Halving distributes over exclusive or. */
  lemma XorHalf(a: nat, b: nat)
    ensures Xor(a, b) / 2 == Xor(a / 2, b / 2)
  {
    XorUnfold(a, b);
  }

  /** Dividing by 2^a and then by 2^b is dividing by 2^(a + b). */
  lemma DivDiv(x: nat, a: nat, b: nat)
    ensures ShiftRight(ShiftRight(x, a), b) == ShiftRight(x, a + b)
  {
    hide Exp2;
    var ea, eb := Exp2(a), Exp2(b);
    Exp2Add(a, b);
    var q1, r1 := x / ea, x % ea;
    var q2, r2 := q1 / eb, q1 % eb;
    assert x == q1 * ea + r1;
    assert q1 == q2 * eb + r2;
    assert x == q2 * (ea * eb) + (r2 * ea + r1);
    MulMono(r2, eb - 1, ea);
    assert (eb - 1) * ea == ea * eb - ea;
    DivModUnique(x, ea * eb, q2, r2 * ea + r1);
  }

  lemma MulMono(a: int, b: int, c: nat)
    requires a <= b
    ensures a * c <= b * c
  {
  }

  /** A right shift by k distributes over exclusive or. */
  lemma {:induction false} XorShrDist(a: nat, b: nat, k: nat)
    ensures ShiftRight(Xor(a, b), k) == Xor(ShiftRight(a, k), ShiftRight(b, k))
  {
    hide Xor, Exp2;
    if k > 0 {
      XorHalf(a, b);
      XorShrDist(a / 2, b / 2, k - 1);
      Exp2One();
      DivDiv(Xor(a, b), 1, k - 1);
      DivDiv(a, 1, k - 1);
      DivDiv(b, 1, k - 1);
    } else {
      Exp2Zero();
    }
  }

  // ---------------------------------------------------------------------
  // Bitwise or

  /** Bitwise inclusive or of two naturals. */
  function Or(a: nat, b: nat): nat
    decreases a + b
  {
    if a == 0 && b == 0 then 0 else 2 * Or(a / 2, b / 2) + (if a % 2 == 1 || b % 2 == 1 then 1 else 0)
  }

  /** The or of two naturals is zero exactly when both are. */
  lemma {:induction false} OrZero(a: nat, b: nat)
    ensures Or(a, b) == 0 <==> a == 0 && b == 0
    decreases a + b
  {
    if (a != 0 || b != 0) && a % 2 == 0 && b % 2 == 0 {
      OrZero(a / 2, b / 2);
    }
  }

  lemma {:induction false} OrBound(a: nat, b: nat, k: nat)
    requires a < Exp2(k) && b < Exp2(k)
    ensures Or(a, b) < Exp2(k)
  {
    if k > 0 && (a != 0 || b != 0) {
      OrBound(a / 2, b / 2, k - 1);
    }
  }

  lemma {:induction false} OrZeroLeft(b: nat)
    ensures Or(0, b) == b
  {
    if b != 0 {
      OrZeroLeft(b / 2);
    }
  }

  /**
   * Or-ing a value below 2^k into a multiple of 2^k is adding it: the two
   * have no bit in common.
   */
  lemma {:induction false} OrDisjoint(a: nat, c: nat, k: nat)
    requires a < Exp2(k)
    ensures Or(a, c * Exp2(k)) == c * Exp2(k) + a
  {
    if k == 0 {
      OrZeroLeft(c);
    } else {
      var h := c * Exp2(k - 1);
      assert c * Exp2(k) == 2 * h;
      if a != 0 || h != 0 {
        OrDisjoint(a / 2, c, k - 1);
        assert Or(a, 2 * h) == 2 * Or(a / 2, h) + a % 2;
      }
    }
  }
}
