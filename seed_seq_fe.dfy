/**
 * The fixed-entropy seed sequence seed_seq_fe<count, mix_rounds>: a pool of
 * `count` 32-bit words filled by keyed hashing of the input words, mixed
 * pairwise, restartably expanded by `generate`, and dumped by `param` in a
 * form that seeds an identical pool.
 *
 * The mixing is specified as a list of operations applied one after the
 * other, each with the next key of the keyed hash; `param` undoes that list
 * from the back.  The round trip of the Seed Sequence requirements
 * (section 26.5.1.2 of C++11, [rand.req.seedseq]) is `ParamSeedsSamePool`.
 */
module SeedSeqFe {
  import opened Bits
  import opened Word32

  const INIT_A: u32 := 0x43B0D7E5
  const MULT_A: u32 := 0x931E8875
  const INIT_B: u32 := 0x8B51F9DD
  const MULT_B: u32 := 0x58F38DED
  const MIX_MULT_L: u32 := 0xCA01F9DD
  const MIX_MULT_R: u32 := 0x4973F715

  /** The default template argument mix_rounds = 1 + (count <= 2). */
  function DefaultMixRounds(count: nat): (r: nat)
    ensures r == 2 <==> count <= 2
    ensures r == 1 <==> count > 2
  {
    1 + (if count <= 2 then 1 else 0)
  }

  // ---------------------------------------------------------------------
  // fast_exp

  lemma PowSquare(m: u32, h: nat)
    ensures Pow(Mul(m, m), h) == Pow(m, 2 * h)
  {
    if h > 0 {
      PowSquare(m, h - 1);
      PowAdd(m, 2, 2 * (h - 1));
      assert 2 * h == 2 + 2 * (h - 1);
      assert Pow(m, 1) == m by { MulOne(m); }
    }
  }

  /** Square-and-multiply exponentiation modulo 2^32 (fast_exp). */
  method FastExp(x: u32, power: u32) returns (result: u32)
    ensures result == Pow(x, power)
  {
    result := 1;
    var multiplier := x;
    var p := power;
    MulOne(Pow(x, power));
    while p != 0
      invariant Mul(result, Pow(multiplier, p)) == Pow(x, power)
      decreases p
    {
      var thismult := if p % 2 == 1 then multiplier else 1;
      assert thismult == Pow(multiplier, p % 2) by { MulOne(multiplier); }
      PowAdd(multiplier, p % 2, 2 * (p / 2));
      PowSquare(multiplier, p / 2);
      MulAssoc(result, thismult, Pow(Mul(multiplier, multiplier), p / 2));
      result := Mul(result, thismult);
      p := p / 2;
      multiplier := Mul(multiplier, multiplier);
    }
    MulOne(result);
  }

  // ---------------------------------------------------------------------
  // The keyed hash, the mix, and their inverses

  /** The hash constant after j multiplications: init * mult^j. */
  function HashConst(init: u32, mult: u32, j: nat): u32
  {
    Mul(init, Pow(mult, j))
  }

  /** value ^= hc; hc *= mult; value *= hc; value ^= value >> 16. */
  function HashWith(value: u32, hc: u32, mult: u32): u32
  {
    XorShift(Mul(XorWord(value, hc), Mul(hc, mult)))
  }

  /** The hash lambda of mix_entropy when it is called for the j-th time. */
  function KeyedHash(value: u32, j: nat): u32
  {
    HashWith(value, HashConst(INIT_A, MULT_A, j), MULT_A)
  }

  lemma HashConstStep(init: u32, mult: u32, j: nat)
    ensures Mul(HashConst(init, mult, j), mult) == HashConst(init, mult, j + 1)
  {
    MulAssoc(init, Pow(mult, j), mult);
    MulComm(Pow(mult, j), mult);
  }

  lemma HashConstZero(init: u32, mult: u32)
    ensures HashConst(init, mult, 0) == init
  {
    MulOne(init);
  }

  /** Multiplying by INV_A steps the hash constant back. */
  lemma HashConstBack(j: nat)
    ensures Mul(HashConst(INIT_A, MULT_A, j + 1), Pow(MULT_A, ALL_ONES)) == HashConst(INIT_A, MULT_A, j)
  {
    hide Pow;
    HashConstStep(INIT_A, MULT_A, j);
    MulCancel(HashConst(INIT_A, MULT_A, j), MULT_A);
  }

  lemma HashConstOdd(j: nat)
    ensures Odd(HashConst(INIT_A, MULT_A, j))
  {
    OddPow(MULT_A, j);
    OddMul(INIT_A, Pow(MULT_A, j));
  }

  /** What param computes to undo the j-th keyed hash. */
  function UnHash(h: u32, j: nat): u32
  {
    XorWord(Mul(XorShift(h), Pow(HashConst(INIT_A, MULT_A, j + 1), ALL_ONES)), HashConst(INIT_A, MULT_A, j))
  }

  lemma UnHashHash(v: u32, j: nat)
    ensures UnHash(KeyedHash(v, j), j) == v
    ensures KeyedHash(UnHash(v, j), j) == v
  {
    hide Pow;
    var c0, c1 := HashConst(INIT_A, MULT_A, j), HashConst(INIT_A, MULT_A, j + 1);
    HashConstStep(INIT_A, MULT_A, j);
    HashConstOdd(j + 1);
    XorShiftTwice(Mul(XorWord(v, c0), c1));
    MulCancel(XorWord(v, c0), c1);
    XorWordTwice(v, c0);
    var u := Mul(XorShift(v), Pow(c1, ALL_ONES));
    XorWordTwice(u, c0);
    MulCancel(XorShift(v), c1);
    XorShiftTwice(v);
  }

  /** The mix lambda: MIX_MULT_L*x - MIX_MULT_R*y, then the xorshift. */
  function Mix(x: u32, y: u32): u32
  {
    XorShift(Sub(Mul(MIX_MULT_L, x), Mul(MIX_MULT_R, y)))
  }

  /** What param computes to undo Mix(x, y) given y. */
  function UnMix(r: u32, y: u32): u32
  {
    Mul(Add(XorShift(r), Mul(MIX_MULT_R, y)), Pow(MIX_MULT_L, ALL_ONES))
  }

  lemma MixThenUnMix(x: u32, y: u32)
    ensures UnMix(Mix(x, y), y) == x
  {
    hide Pow, Mul, Sub, Add, XorShift;
    var ry := Mul(MIX_MULT_R, y);
    var lx := Mul(MIX_MULT_L, x);
    XorShiftTwice(Sub(lx, ry));
    assert XorShift(Mix(x, y)) == Sub(lx, ry);
    SubThenAdd(lx, ry);
    assert Add(XorShift(Mix(x, y)), ry) == lx;
    MulComm(MIX_MULT_L, x);
    MulCancel(x, MIX_MULT_L);
  }

  lemma UnMixThenMix(x: u32, y: u32)
    ensures Mix(UnMix(x, y), y) == x
  {
    hide Pow;
    var ry := Mul(MIX_MULT_R, y);
    var w := Add(XorShift(x), ry);
    MulCancel(w, MIX_MULT_L);
    MulComm(MIX_MULT_L, Mul(w, Pow(MIX_MULT_L, ALL_ONES)));
    assert Mul(MIX_MULT_L, UnMix(x, y)) == w;
    AddThenSub(XorShift(x), ry);
    XorShiftTwice(x);
  }

  // ---------------------------------------------------------------------
  // Mixing as a list of operations

  /**
   * One mixing step: Pair(src, dst) is `dest = mix(dest, hash(src))` of the
   * pairwise pass, Inject(value, dst) the same with an input word beyond
   * the first `count`.
   */
  datatype Op = Pair(src: nat, dst: nat) | Inject(value: u32, dst: nat)

  predicate ValidOp(o: Op, n: nat)
  {
    o.dst < n && (o.Pair? ==> o.src < n && o.src != o.dst)
  }

  /** The input words converted to IntRep, as the hash lambda's parameter does. */
  function Words(input: seq<int>): (r: seq<u32>)
    ensures |r| == |input|
    ensures forall k :: 0 <= k < |input| ==> r[k] == input[k] % MOD
  {
    seq(|input|, k requires 0 <= k < |input| => Trunc(input[k]))
  }

  /** The word that is hashed before it is mixed into the destination. */
  function Operand(p: seq<u32>, o: Op): u32
    requires ValidOp(o, |p|)
  {
    if o.Pair? then p[o.src] else o.value
  }

  lemma PairOperand(p: seq<u32>, src: nat, dst: nat)
    requires src < |p| && dst < |p| && src != dst
    ensures ValidOp(Pair(src, dst), |p|) && Operand(p, Pair(src, dst)) == p[src]
  {
  }

  lemma InjectOperand(p: seq<u32>, w: u32, dst: nat)
    requires dst < |p|
    ensures ValidOp(Inject(w, dst), |p|) && Operand(p, Inject(w, dst)) == w
  {
  }

  /**
   * One mixing step on a pool; an operation that does not name two distinct
   * slots of the pool (the passes never build one, see PairsMember and
   * InjectionsOrder) leaves it unchanged.
   */
  function ApplyOp(p: seq<u32>, o: Op, key: nat): (r: seq<u32>)
    ensures |r| == |p|
  {
    if ValidOp(o, |p|) then p[o.dst := Mix(p[o.dst], KeyedHash(Operand(p, o), key))] else p
  }

  function UndoOp(p: seq<u32>, o: Op, key: nat): (r: seq<u32>)
    ensures |r| == |p|
  {
    if ValidOp(o, |p|) then p[o.dst := UnMix(p[o.dst], KeyedHash(Operand(p, o), key))] else p
  }

  lemma UndoApplyOp(p: seq<u32>, o: Op, key: nat)
    ensures UndoOp(ApplyOp(p, o, key), o, key) == p
    ensures ApplyOp(UndoOp(p, o, key), o, key) == p
  {
    if ValidOp(o, |p|) {
      MixThenUnMix(p[o.dst], KeyedHash(Operand(p, o), key));
      UnMixThenMix(p[o.dst], KeyedHash(Operand(p, o), key));
    }
  }

  /** Applies ops in order; the t-th operation uses key `key + t`. */
  function ApplyOps(p: seq<u32>, ops: seq<Op>, key: nat): (r: seq<u32>)
    ensures |r| == |p|
    decreases |ops|
  {
    if |ops| == 0 then p
    else ApplyOp(ApplyOps(p, ops[..|ops| - 1], key), ops[|ops| - 1], key + |ops| - 1)
  }

  /** Undoes ops from the last one back to the first. */
  function UndoOps(p: seq<u32>, ops: seq<Op>, key: nat): (r: seq<u32>)
    ensures |r| == |p|
    decreases |ops|
  {
    if |ops| == 0 then p
    else UndoOps(UndoOp(p, ops[|ops| - 1], key + |ops| - 1), ops[..|ops| - 1], key)
  }

  lemma {:induction false} UndoOpsApplyOps(p: seq<u32>, ops: seq<Op>, key: nat)
    ensures UndoOps(ApplyOps(p, ops, key), ops, key) == p
    ensures ApplyOps(UndoOps(p, ops, key), ops, key) == p
    decreases |ops|
  {
    hide ApplyOp, UndoOp, Mix, UnMix, KeyedHash;
    if |ops| > 0 {
      var front, o, k := ops[..|ops| - 1], ops[|ops| - 1], key + |ops| - 1;
      var q := ApplyOps(p, front, key);
      UndoApplyOp(q, o, k);
      UndoOpsApplyOps(p, front, key);
      var u := UndoOp(p, o, k);
      UndoOpsApplyOps(u, front, key);
      UndoApplyOp(p, o, k);
    }
  }

  lemma ApplyOpsUnfold(p: seq<u32>, ops: seq<Op>, key: nat)
    ensures |ops| == 0 ==> ApplyOps(p, ops, key) == p
  {
  }

  lemma UndoOpsUnfold(p: seq<u32>, ops: seq<Op>, key: nat)
    ensures |ops| == 0 ==> UndoOps(p, ops, key) == p
    ensures |ops| > 0 ==> UndoOps(p, ops, key) == UndoOps(UndoOp(p, ops[|ops| - 1], key + |ops| - 1), ops[..|ops| - 1], key)
  {
  }

  lemma ApplyOpsAppend(p: seq<u32>, ops: seq<Op>, o: Op, key: nat)
    ensures ApplyOps(p, ops + [o], key) == ApplyOp(ApplyOps(p, ops, key), o, key + |ops|)
  {
    assert (ops + [o])[..|ops|] == ops;
  }

  // ---------------------------------------------------------------------
  // The pairwise pass: every ordered pair (src, dst) with src != dst

  /** The pairs (s, d) for d < upTo, d != s, in increasing d. */
  function Row(n: nat, s: nat, upTo: nat): seq<Op>
  {
    if upTo == 0 then []
    else Row(n, s, upTo - 1) + (if upTo - 1 == s then [] else [Pair(s, upTo - 1)])
  }

  /** The rows of the sources below `rows`, in increasing source order. */
  function Rows(n: nat, rows: nat): seq<Op>
  {
    if rows == 0 then [] else Rows(n, rows - 1) + Row(n, rows - 1, n)
  }

  function Pairs(n: nat): seq<Op>
  {
    Rows(n, n)
  }

  lemma RowsUnfold(n: nat, rows: nat)
    ensures Pairs(n) == Rows(n, n)
    ensures rows == 0 ==> Rows(n, rows) == []
    ensures rows > 0 ==> Rows(n, rows) == Rows(n, rows - 1) + Row(n, rows - 1, n)
  {
  }

  lemma RowUnfold(n: nat, s: nat, upTo: nat)
    ensures upTo == 0 ==> Row(n, s, upTo) == []
    ensures upTo > 0 && upTo - 1 == s ==> Row(n, s, upTo) == Row(n, s, upTo - 1)
    ensures upTo > 0 && upTo - 1 != s ==> Row(n, s, upTo) == Row(n, s, upTo - 1) + [Pair(s, upTo - 1)]
  {
  }

  lemma {:induction false} RowFacts(n: nat, s: nat, upTo: nat)
    requires s < n && upTo <= n
    ensures |Row(n, s, upTo)| == if s < upTo then upTo - 1 else upTo
  {
    if upTo > 0 {
      RowFacts(n, s, upTo - 1);
    }
  }

  lemma {:induction false} RowMember(n: nat, s: nat, upTo: nat, o: Op)
    ensures o in Row(n, s, upTo) <==> o.Pair? && o.src == s && o.dst < upTo && o.dst != s
  {
    if upTo > 0 {
      RowMember(n, s, upTo - 1, o);
    }
  }

  lemma {:induction false} RowsLength(n: nat, rows: nat)
    requires rows <= n
    ensures |Rows(n, rows)| == rows * (n - 1)
  {
    if rows > 0 {
      RowsLength(n, rows - 1);
      RowFacts(n, rows - 1, n);
      assert rows * (n - 1) == (rows - 1) * (n - 1) + (n - 1);
    }
  }

  lemma {:induction false} RowsMember(n: nat, rows: nat, o: Op)
    ensures o in Rows(n, rows) <==> o.Pair? && o.src < rows && o.dst < n && o.dst != o.src
  {
    hide *;
    RowsUnfold(n, rows);
    if rows > 0 {
      var r0, r1 := Rows(n, rows - 1), Row(n, rows - 1, n);
      assert o in r0 + r1 <==> o in r0 || o in r1;
      RowsMember(n, rows - 1, o);
      RowMember(n, rows - 1, n, o);
    }
  }

  /** count * count: the number of keyed hashes of the fill and the pairwise pass together. */
  function Square(n: nat): (r: nat)
    ensures r == n * n
  {
    n * n
  }

  /**
   * The pairwise pass calls the keyed hash once per ordered pair of
   * distinct slots; with the `count` hashes of the initial fill that makes
   * count * count calls.
   */
  lemma PairsFacts(n: nat)
    ensures |Pairs(n)| == n * (n - 1)
    ensures n + |Pairs(n)| == Square(n)
  {
    RowsLength(n, n);
    if n > 0 {
      assert n * (n - 1) == n * n - n;
    }
  }

  /** The pairwise pass mixes every ordered pair of distinct slots, and only those. */
  lemma PairsMember(n: nat, o: Op)
    ensures o in Pairs(n) <==> o.Pair? && o.src < n && o.dst < n && o.src != o.dst
  {
    RowsMember(n, n, o);
  }

  /** Mixing the word w into the slots below upTo, in order. */
  function InjectRow(w: u32, upTo: nat): seq<Op>
  {
    if upTo == 0 then [] else InjectRow(w, upTo - 1) + [Inject(w, upTo - 1)]
  }

  /** Mixing each extra input word, in order, into every one of n slots. */
  function Injections(ws: seq<u32>, n: nat): seq<Op>
  {
    if |ws| == 0 then [] else Injections(ws[..|ws| - 1], n) + InjectRow(ws[|ws| - 1], n)
  }

  lemma InjectRowUnfold(w: u32, upTo: nat)
    ensures upTo == 0 ==> InjectRow(w, upTo) == []
    ensures upTo > 0 ==> InjectRow(w, upTo) == InjectRow(w, upTo - 1) + [Inject(w, upTo - 1)]
  {
  }

  lemma InjectionsUnfold(ws: seq<u32>, n: nat)
    ensures |ws| == 0 ==> Injections(ws, n) == []
    ensures |ws| > 0 ==> Injections(ws, n) == Injections(ws[..|ws| - 1], n) + InjectRow(ws[|ws| - 1], n)
  {
  }

  lemma {:induction false} InjectRowFacts(w: u32, upTo: nat, n: nat)
    requires upTo <= n
    ensures |InjectRow(w, upTo)| == upTo
    ensures forall i :: 0 <= i < upTo ==> InjectRow(w, upTo)[i] == Inject(w, i)
  {
    if upTo > 0 {
      InjectRowFacts(w, upTo - 1, n);
    }
  }

  lemma {:induction false} InjectionsLength(ws: seq<u32>, n: nat)
    ensures |Injections(ws, n)| == |ws| * n
  {
    if |ws| > 0 {
      var front := ws[..|ws| - 1];
      InjectionsLength(front, n);
      InjectRowFacts(ws[|ws| - 1], n, n);
      assert |ws| * n == |front| * n + n;
    }
  }

  lemma LowerRow(e: nat, f: nat, n: nat, d: nat)
    requires e < f && d < n
    ensures e * n + d < f * n
  {
    MulAtLeast(f - e, n);
    assert f * n - e * n == (f - e) * n;
  }

  /** Each extra word is mixed into every slot, in slot order, word after word. */
  lemma {:induction false} InjectionsOrder(ws: seq<u32>, n: nat, e: nat, d: nat)
    requires e < |ws| && d < n
    ensures e * n + d < |Injections(ws, n)|
    ensures Injections(ws, n)[e * n + d] == Inject(ws[e], d)
  {
    var front := ws[..|ws| - 1];
    InjectionsLength(ws, n);
    InjectionsLength(front, n);
    InjectRowFacts(ws[|ws| - 1], n, n);
    LowerRow(e, |ws|, n, d);
    if e < |front| {
      InjectionsOrder(front, n, e, d);
      LowerRow(e, |front|, n, d);
      assert front[e] == ws[e];
    } else {
      assert e * n + d == |front| * n + d;
    }
  }

  // ---------------------------------------------------------------------
  // mix_entropy, seeding and param, as functions of the pool

  function Min(a: nat, b: nat): nat { if a < b then a else b }

  /** Slot k after the fill: the hash of input word k, or of 0 past the input. */
  function FillWord(input: seq<u32>, k: nat): u32
  {
    KeyedHash(if k < |input| then input[k] else 0, k)
  }

  function Fill(input: seq<u32>, n: nat): (r: seq<u32>)
    ensures |r| == n
  {
    seq(n, k requires 0 <= k < n => FillWord(input, k))
  }

  /** The input words beyond the first n. */
  function Extra(input: seq<u32>, n: nat): seq<u32>
  {
    if |input| <= n then [] else input[n..]
  }

  lemma ExtraWords(input: seq<u32>, n: nat, i0: nat)
    requires i0 == Min(|input|, n)
    ensures i0 <= |input| && input[i0..] == Extra(input, n) && input[i0..i0] == []
  {
  }

  function MixOps(input: seq<u32>, n: nat): seq<Op>
  {
    Pairs(n) + Injections(Extra(input, n), n)
  }

  /** The pool after mix_entropy over `input` with n slots. */
  function MixEntropy(input: seq<u32>, n: nat): (r: seq<u32>)
    ensures |r| == n
  {
    ApplyOps(Fill(input, n), MixOps(input, n), n)
  }

  lemma MixEntropyUnfold(input: seq<u32>, n: nat)
    ensures MixEntropy(input, n) == ApplyOps(Fill(input, n), Pairs(n) + Injections(Extra(input, n), n), n)
  {
  }

  /** One round over a pool: the re-seed of the pool from its own words (stir). */
  function Round(p: seq<u32>): (r: seq<u32>)
    ensures |r| == |p|
  {
    MixEntropy(p, |p|)
  }

  function RoundN(p: seq<u32>, rounds: nat): (r: seq<u32>)
    ensures |r| == |p|
  {
    if rounds == 0 then p else Round(RoundN(p, rounds - 1))
  }

  /** The pool a seed_seq_fe holds after construction from `input`. */
  function SeededPool(input: seq<u32>, count: nat, mixRounds: nat): (r: seq<u32>)
    ensures |r| == count
  {
    RoundN(MixEntropy(input, count), if mixRounds == 0 then 0 else mixRounds - 1)
  }

  function UnFill(p: seq<u32>): (r: seq<u32>)
    ensures |r| == |p|
  {
    seq(|p|, k requires 0 <= k < |p| => UnHash(p[k], k))
  }

  /** One round of param's inversion. */
  function UnRound(p: seq<u32>): (r: seq<u32>)
    ensures |r| == |p|
  {
    UnFill(UndoOps(p, Pairs(|p|), |p|))
  }

  function UnRoundN(p: seq<u32>, rounds: nat): (r: seq<u32>)
    ensures |r| == |p|
    decreases rounds
  {
    if rounds == 0 then p else UnRoundN(UnRound(p), rounds - 1)
  }

  lemma FillUnFill(q: seq<u32>)
    ensures Fill(UnFill(q), |q|) == q
  {
    var u := UnFill(q);
    forall k | 0 <= k < |q|
      ensures Fill(u, |q|)[k] == q[k]
    {
      assert u[k] == UnHash(q[k], k);
      UnHashHash(q[k], k);
    }
  }

  lemma UnFillFill(p: seq<u32>)
    ensures UnFill(Fill(p, |p|)) == p
  {
    var f := Fill(p, |p|);
    forall k | 0 <= k < |p|
      ensures UnFill(f)[k] == p[k]
    {
      assert f[k] == KeyedHash(p[k], k);
      UnHashHash(p[k], k);
    }
  }

  /** A pool's own words bring no extra input: a round is fill then pairwise pass. */
  lemma RoundOps(p: seq<u32>)
    ensures MixOps(p, |p|) == Pairs(|p|)
  {
    assert Extra(p, |p|) == [];
  }

  lemma RoundIsInverse(p: seq<u32>)
    ensures Round(UnRound(p)) == p
  {
    var n := |p|;
    PairsFacts(n);
    var q := UndoOps(p, Pairs(n), n);
    RoundOps(UnFill(q));
    FillUnFill(q);
    UndoOpsApplyOps(p, Pairs(n), n);
  }

  lemma UnRoundIsInverse(p: seq<u32>)
    ensures UnRound(Round(p)) == p
  {
    var n := |p|;
    PairsFacts(n);
    RoundOps(p);
    UndoOpsApplyOps(Fill(p, n), Pairs(n), n);
    UnFillFill(p);
  }

  lemma {:induction false} RoundNIsInverse(p: seq<u32>, rounds: nat)
    ensures RoundN(UnRoundN(p, rounds), rounds) == p
    ensures UnRoundN(RoundN(p, rounds), rounds) == p
    decreases rounds
  {
    hide Round, UnRound;
    if rounds > 0 {
      RoundIsInverse(p);
      RoundNIsInverse(UnRound(p), rounds - 1);
      RoundNIsInverse(p, rounds - 1);
      UnRoundIsInverse(RoundN(p, rounds - 1));
      UnRoundNLast(Round(RoundN(p, rounds - 1)), rounds);
    }
  }

  /** param's rounds may be counted from either end. */
  lemma {:induction false} UnRoundNLast(p: seq<u32>, rounds: nat)
    requires rounds > 0
    ensures UnRoundN(p, rounds) == UnRoundN(UnRound(p), rounds - 1)
  {
    hide UnRound;
  }

  /** The Seed Sequence round trip: seeding from param's words reproduces the pool. */
  lemma ParamSeedsSamePool(pool: seq<u32>, mixRounds: nat)
    requires mixRounds >= 1
    ensures |UnRoundN(pool, mixRounds)| == |pool|
    ensures SeededPool(UnRoundN(pool, mixRounds), |pool|, mixRounds) == pool
  {
    hide Round, UnRound, MixEntropy;
    var n, w := |pool|, UnRoundN(pool, mixRounds);
    RoundNIsInverse(pool, mixRounds);
    RoundFirst(w, mixRounds);
  }

  /** And conversely: param of a pool seeded from count words gives the words back. */
  lemma SeedThenParam(input: seq<u32>, mixRounds: nat)
    requires mixRounds >= 1
    ensures UnRoundN(SeededPool(input, |input|, mixRounds), mixRounds) == input
  {
    hide Round, UnRound, MixEntropy;
    RoundFirst(input, mixRounds);
    RoundNIsInverse(input, mixRounds);
  }

  /** k zero words, the hash(0U) slots of a short input. */
  function ZeroWords(k: nat): (r: seq<u32>)
    ensures |r| == k && forall i :: 0 <= i < k ==> r[i] == 0
  {
    seq(k, i => 0)
  }

  /**
   * An input shorter than count is padded with zeros: its pool is the pool
   * of the input followed by zero words up to count.
   */
  lemma PaddedSeedsSamePool(input: seq<u32>, count: nat, mixRounds: nat)
    requires |input| <= count
    ensures SeededPool(input, count, mixRounds) == SeededPool(input + ZeroWords(count - |input|), count, mixRounds)
  {
    hide Round, ApplyOps;
    var padded := input + ZeroWords(count - |input|);
    forall k | 0 <= k < count
      ensures Fill(input, count)[k] == Fill(padded, count)[k]
    {
      assert FillWord(input, k) == FillWord(padded, k);
    }
    assert Fill(input, count) == Fill(padded, count);
    assert Extra(input, count) == [] == Extra(padded, count);
  }

  /**
   * The seeding is injective on inputs of one length up to count: the
   * header's "no state occurs more than once" for M <= N inputs
   * (xoroshiro/seed_seq_fe.hpp, lines 137-143).  Zero mixing rounds seed
   * like one.
   */
  lemma SeedInjective(a: seq<u32>, b: seq<u32>, count: nat, mixRounds: nat)
    requires |a| == |b| <= count
    requires SeededPool(a, count, mixRounds) == SeededPool(b, count, mixRounds)
    ensures a == b
  {
    hide Round, UnRound, MixEntropy;
    var rounds := if mixRounds == 0 then 1 else mixRounds;
    var pa, pb := a + ZeroWords(count - |a|), b + ZeroWords(count - |b|);
    PaddedSeedsSamePool(a, count, mixRounds);
    PaddedSeedsSamePool(b, count, mixRounds);
    assert SeededPool(pa, count, rounds) == SeededPool(pb, count, rounds);
    SeedThenParam(pa, rounds);
    SeedThenParam(pb, rounds);
    assert pa == pb;
    assert a == pa[..|a|] && b == pb[..|b|];
  }

  /** Seeding from exactly count words is mixRounds rounds. */
  lemma {:induction false} RoundFirst(w: seq<u32>, rounds: nat)
    requires rounds >= 1
    ensures SeededPool(w, |w|, rounds) == RoundN(w, rounds)
  {
    hide MixEntropy;
    RoundNShift(w, rounds - 1);
  }

  lemma {:induction false} RoundNShift(w: seq<u32>, r: nat)
    ensures RoundN(Round(w), r) == RoundN(w, r + 1)
  {
    hide Round;
    if r > 0 {
      RoundNShift(w, r - 1);
    }
  }

  // ---------------------------------------------------------------------
  // generate

  /** Output word k of generate: a hash of pool[k mod count] with INIT_B * MULT_B^k. */
  function GenWord(pool: seq<u32>, k: nat): u32
    requires |pool| > 0
  {
    HashWith(pool[k % |pool|], HashConst(INIT_B, MULT_B, k), MULT_B)
  }

  function Generated(pool: seq<u32>, len: nat): (r: seq<u32>)
    requires |pool| > 0 || len == 0
    ensures |r| == len
  {
    seq(len, k requires 0 <= k < len => GenWord(pool, k))
  }

  /** A shorter request yields a prefix of a longer one. */
  lemma GeneratedPrefix(pool: seq<u32>, m: nat, n: nat)
    requires m <= n && (|pool| > 0 || n == 0)
    ensures Generated(pool, m) == Generated(pool, n)[..m]
  {
  }

  /** Each output word depends on one pool word, and invertibly so. */
  lemma GenWordInjective(p: seq<u32>, q: seq<u32>, k: nat)
    requires |p| == |q| > 0
    ensures GenWord(p, k) == GenWord(q, k) <==> p[k % |p|] == q[k % |q|]
  {
    var c0, c1 := HashConst(INIT_B, MULT_B, k), HashConst(INIT_B, MULT_B, k + 1);
    HashConstStep(INIT_B, MULT_B, k);
    OddPow(MULT_B, k + 1);
    OddMul(INIT_B, Pow(MULT_B, k + 1));
    var a, b := p[k % |p|], q[k % |q|];
    if GenWord(p, k) == GenWord(q, k) {
      XorShiftTwice(Mul(XorWord(a, c0), c1));
      XorShiftTwice(Mul(XorWord(b, c0), c1));
      MulCancel(XorWord(a, c0), c1);
      MulCancel(XorWord(b, c0), c1);
      XorWordTwice(a, c0);
      XorWordTwice(b, c0);
    }
  }

  lemma {:induction false} ApplyOpsConcat(p: seq<u32>, a: seq<Op>, b: seq<Op>, key: nat)
    ensures ApplyOps(p, a + b, key) == ApplyOps(ApplyOps(p, a, key), b, key + |a|)
    decreases |b|
  {
    if |b| > 0 {
      var b' := b[..|b| - 1];
      assert (a + b)[..|a + b| - 1] == a + b';
      ApplyOpsConcat(p, a, b', key);
    } else {
      assert a + b == a;
    }
  }

  lemma ModNext(k: nat, n: nat)
    requires n > 0
    ensures k % n + 1 < n ==> (k + 1) % n == k % n + 1
    ensures k % n + 1 == n ==> (k + 1) % n == 0
  {
    var q := k / n;
    assert k == q * n + k % n;
    if k % n + 1 < n {
      DivModUnique(k + 1, n, q, k % n + 1);
    } else {
      assert k + 1 == (q + 1) * n + 0;
      DivModUnique(k + 1, n, q + 1, 0);
    }
  }

  // ---------------------------------------------------------------------
  // The object

  class SeedSeq {
    const count: nat
    const mixRounds: nat
    /** The static_vector pool; empty only for a default-constructed object. */
    var mixer: seq<u32>

    predicate Valid()
      reads this
    {
      |mixer| == 0 || |mixer| == count
    }

    /** seed_seq_fe(): an empty sequence. */
    constructor Empty(count: nat, mixRounds: nat)
      ensures this.count == count && this.mixRounds == mixRounds
      ensures mixer == [] && Valid()
    {
      this.count := count;
      this.mixRounds := mixRounds;
      mixer := [];
    }

    /**
     * seed_seq_fe(begin, end): seeded from the input words, each converted
     * to IntRep.
     */
    constructor (count: nat, mixRounds: nat, input: seq<int>)
      ensures this.count == count && this.mixRounds == mixRounds
      ensures mixer == SeededPool(Words(input), count, mixRounds)
      ensures Valid() && |mixer| == Size()
    {
      this.count := count;
      this.mixRounds := mixRounds;
      mixer := [];
      new;
      Seed(Words(input));
    }

    function Size(): nat
    {
      count
    }

    /** seed(begin, end): mix_entropy, then mix_rounds - 1 stirs. */
    method Seed(input: seq<u32>)
      requires Valid()
      modifies this
      ensures mixer == SeededPool(input, count, mixRounds)
    {
      hide Round, MixEntropy;
      MixEntropyInto(input);
      ghost var first := mixer;
      var i := 1;
      while i < mixRounds
        invariant 1 <= i && (i <= mixRounds || i == 1) && |mixer| == count
        invariant mixer == RoundN(first, i - 1)
      {
        Stir();
        i := i + 1;
      }
    }

    /** stir(): mix_entropy over the pool's own words. */
    method Stir()
      requires |mixer| == count
      modifies this
      ensures mixer == Round(old(mixer))
    {
      MixEntropyInto(mixer);
    }

    /** mix_entropy(begin, end) on the pool. */
    method MixEntropyInto(input: seq<u32>)
      requires Valid()
      modifies this
      ensures mixer == MixEntropy(input, count)
    {
      hide *;
      var hc, i := FillPool(input);
      ghost var filled := mixer;
      hc := PairwisePass(hc);
      MixExtra(input, i, hc);
      PairsFacts(count);
      ApplyOpsConcat(filled, Pairs(count), Injections(Extra(input, count), count), count);
      MixEntropyUnfold(input, count);
    }

    /**
     * The first part of mix_entropy: slot k receives the hash of input word
     * k, or of 0 past the end of the input, with key k; a default-constructed
     * pool grows to count words, a seeded one is overwritten in place.
     */
    method FillPool(input: seq<u32>) returns (hc: u32, i: nat)
      requires Valid()
      modifies this
      ensures mixer == Fill(input, count)
      ensures hc == HashConst(INIT_A, MULT_A, count) && i == Min(|input|, count)
    {
      hide Pow, Mul, HashWith, XorShift, XorWord;
      HashConstZero(INIT_A, MULT_A);
      var n := count;
      hc := INIT_A;
      i := 0;
      if |mixer| == 0 {
        while i < |input| && |mixer| < n
          invariant i == |mixer| <= n && i <= |input|
          invariant hc == HashConst(INIT_A, MULT_A, i)
          invariant forall k :: 0 <= k < i ==> mixer[k] == FillWord(input, k)
        {
          mixer := mixer + [HashWith(input[i], hc, MULT_A)];
          HashConstStep(INIT_A, MULT_A, i);
          hc := Mul(hc, MULT_A);
          i := i + 1;
        }
        while |mixer| < n
          invariant i == Min(|input|, n) && i <= |mixer| <= n
          invariant hc == HashConst(INIT_A, MULT_A, |mixer|)
          invariant forall k :: 0 <= k < |mixer| ==> mixer[k] == FillWord(input, k)
        {
          mixer := mixer + [HashWith(0, hc, MULT_A)];
          HashConstStep(INIT_A, MULT_A, |mixer| - 1);
          hc := Mul(hc, MULT_A);
        }
      } else {
        var k := 0;
        while k < n
          invariant k <= n && |mixer| == n
          invariant i == Min(|input|, k)
          invariant hc == HashConst(INIT_A, MULT_A, k)
          invariant forall j :: 0 <= j < k ==> mixer[j] == FillWord(input, j)
        {
          if i < |input| {
            mixer := mixer[k := HashWith(input[i], hc, MULT_A)];
            i := i + 1;
          } else {
            mixer := mixer[k := HashWith(0, hc, MULT_A)];
          }
          HashConstStep(INIT_A, MULT_A, k);
          hc := Mul(hc, MULT_A);
          k := k + 1;
        }
      }
    }

    /** The pairwise part of mix_entropy: dest = mix(dest, hash(src)) for src != dest. */
    method PairwisePass(hc0: u32) returns (hc: u32)
      requires |mixer| == count && hc0 == HashConst(INIT_A, MULT_A, count)
      modifies this
      ensures mixer == ApplyOps(old(mixer), Pairs(count), count)
      ensures hc == HashConst(INIT_A, MULT_A, Square(count))
    {
      hide *;
      var n := count;
      hc := hc0;
      ghost var start := mixer;
      RowsUnfold(n, 0);
      ApplyOpsUnfold(start, [], n);
      var src := 0;
      while src < n
        invariant src <= n && |mixer| == n
        invariant mixer == ApplyOps(start, Rows(n, src), n)
        invariant hc == HashConst(INIT_A, MULT_A, n + |Rows(n, src)|)
      {
        hc := PairRow(src, hc, start);
        src := src + 1;
      }
      PairsFacts(n);
    }

    /** One source word of the pairwise pass, mixed into every other slot in turn. */
    method PairRow(src: nat, hc0: u32, ghost start: seq<u32>) returns (hc: u32)
      requires src < count && |mixer| == count && |start| == count
      requires mixer == ApplyOps(start, Rows(count, src), count)
      requires hc0 == HashConst(INIT_A, MULT_A, count + |Rows(count, src)|)
      modifies this
      ensures |mixer| == count
      ensures mixer == ApplyOps(start, Rows(count, src + 1), count)
      ensures hc == HashConst(INIT_A, MULT_A, count + |Rows(count, src + 1)|)
    {
      hide *;
      var n := count;
      hc := hc0;
      ghost var done := Rows(n, src);
      RowUnfold(n, src, 0);
      RowsUnfold(n, src + 1);
      assert done + Row(n, src, 0) == done;
      var dest := 0;
      while dest < n
        invariant dest <= n && |mixer| == n
        invariant done == Rows(n, src) + Row(n, src, dest)
        invariant mixer == ApplyOps(start, done, n)
        invariant hc == HashConst(INIT_A, MULT_A, n + |done|)
      {
        RowUnfold(n, src, dest + 1);
        if src != dest {
          PairOperand(mixer, src, dest);
          hc := MixStep(dest, mixer[src], hc, Pair(src, dest), start, done, n);
          done := done + [Pair(src, dest)];
        }
        dest := dest + 1;
      }
    }

    /**
     * One call of the keyed hash inside mix_entropy: `dest = mix(dest,
     * hash(value))`, after which the hash constant moves on by MULT_A.
     */
    method MixStep(dest: nat, value: u32, hc: u32, ghost o: Op, ghost start: seq<u32>, ghost done: seq<Op>, ghost base: nat)
      returns (next: u32)
      requires |start| == |mixer| && ValidOp(o, |mixer|)
      requires mixer == ApplyOps(start, done, base)
      requires o.dst == dest && value == Operand(mixer, o)
      requires hc == HashConst(INIT_A, MULT_A, base + |done|)
      modifies this
      ensures |mixer| == |start|
      ensures mixer == ApplyOps(start, done + [o], base)
      ensures next == HashConst(INIT_A, MULT_A, base + |done + [o]|)
    {
      ApplyOpsAppend(start, done, o, base);
      var h := HashWith(value, hc, MULT_A);
      mixer := mixer[dest := Mix(mixer[dest], h)];
      HashConstStep(INIT_A, MULT_A, base + |done|);
      next := Mul(hc, MULT_A);
    }

    /** The last part of mix_entropy: each input word past the first count, into every slot. */
    method MixExtra(input: seq<u32>, i0: nat, hc0: u32)
      requires |mixer| == count && i0 == Min(|input|, count)
      requires hc0 == HashConst(INIT_A, MULT_A, Square(count))
      modifies this
      ensures mixer == ApplyOps(old(mixer), Injections(Extra(input, count), count), Square(count))
    {
      hide *;
      var n := count;
      var hc := hc0;
      var i := i0;
      ghost var start := mixer;
      ghost var base: nat := Square(n);
      ExtraWords(input, n, i0);
      InjectionsUnfold([], n);
      ApplyOpsUnfold(start, [], base);
      while i < |input|
        invariant i0 <= i <= |input| && |mixer| == n
        invariant mixer == ApplyOps(start, Injections(input[i0..i], n), base)
        invariant hc == HashConst(INIT_A, MULT_A, base + |Injections(input[i0..i], n)|)
      {
        assert input[i0..i + 1] == input[i0..i] + [input[i]];
        hc := InjectWord(input[i], hc, start, input[i0..i], base);
        i := i + 1;
      }
      assert input[i0..i] == input[i0..];
    }

    /** One extra input word, mixed into every slot in turn. */
    method InjectWord(w: u32, hc0: u32, ghost start: seq<u32>, ghost extra: seq<u32>, ghost base: nat)
      returns (hc: u32)
      requires |mixer| == count && |start| == count
      requires mixer == ApplyOps(start, Injections(extra, count), base)
      requires hc0 == HashConst(INIT_A, MULT_A, base + |Injections(extra, count)|)
      modifies this
      ensures |mixer| == count
      ensures mixer == ApplyOps(start, Injections(extra + [w], count), base)
      ensures hc == HashConst(INIT_A, MULT_A, base + |Injections(extra + [w], count)|)
    {
      hide *;
      var n := count;
      hc := hc0;
      ghost var done := Injections(extra, n);
      InjectRowUnfold(w, 0);
      InjectionsUnfold(extra + [w], n);
      assert (extra + [w])[..|extra|] == extra;
      assert done + InjectRow(w, 0) == done;
      var d := 0;
      while d < n
        invariant d <= n && |mixer| == n
        invariant done == Injections(extra, n) + InjectRow(w, d)
        invariant mixer == ApplyOps(start, done, base)
        invariant hc == HashConst(INIT_A, MULT_A, base + |done|)
      {
        InjectRowUnfold(w, d + 1);
        InjectOperand(mixer, w, d);
        hc := MixStep(d, w, hc, Inject(w, d), start, done, base);
        done := done + [Inject(w, d)];
        d := d + 1;
      }
    }

    /** generate(first, last): fills dest from the pool; the pool is unchanged. */
    method Generate(dest: array<u32>)
      requires dest.Length == 0 || |mixer| > 0
      modifies dest
      ensures dest[..] == Generated(mixer, dest.Length)
    {
      var src := 0;
      var hc := INIT_B;
      var k := 0;
      while k < dest.Length
        invariant k <= dest.Length
        invariant k > 0 ==> src == k % |mixer|
        invariant k == 0 ==> src == 0
        invariant hc == HashConst(INIT_B, MULT_B, k)
        invariant forall j :: 0 <= j < k ==> dest[j] == GenWord(mixer, j)
      {
        var dataval := mixer[src];
        assert src == k % |mixer|;
        ModNext(k, |mixer|);
        src := src + 1;
        if src == |mixer| {
          src := 0;
        }
        dataval := XorWord(dataval, hc);
        HashConstStep(INIT_B, MULT_B, k);
        hc := Mul(hc, MULT_B);
        dataval := Mul(dataval, hc);
        dataval := XorShift(dataval);
        dest[k] := dataval;
        k := k + 1;
      }
    }

    /** param(dest): the words that seed an identical pool. */
    method Param() returns (out: seq<u32>)
      ensures out == UnRoundN(mixer, mixRounds)
    {
      hide Pow, UnRound;
      var invA := FastExp(MULT_A, ALL_ONES);
      var mixInvL := FastExp(MIX_MULT_L, ALL_ONES);
      var n := |mixer|;
      var pool := mixer;
      var copy := new u32[n](k requires 0 <= k < n => pool[k]);
      assert copy[..] == pool;
      var round := 0;
      while round < mixRounds
        invariant round <= mixRounds && copy.Length == n
        invariant UnRoundN(copy[..], mixRounds - round) == UnRoundN(pool, mixRounds)
      {
        UnRoundInPlace(copy, invA, mixInvL);
        round := round + 1;
      }
      out := copy[..];
    }

    /** One round of param, undone in place: the pairwise pass backwards, then the hash of the fill. */
    static method UnRoundInPlace(copy: array<u32>, invA: u32, mixInvL: u32)
      requires invA == Pow(MULT_A, ALL_ONES) && mixInvL == Pow(MIX_MULT_L, ALL_ONES)
      modifies copy
      ensures copy[..] == UnRound(old(copy[..]))
    {
      hide Pow, Square, UndoOps, Pairs, UnFill;
      var n := copy.Length;
      var e := FastExp(MULT_A, Square(n) % MOD);
      ExponentWraps(MULT_A, Square(n));
      var hc := Mul(INIT_A, e);
      hc := UndoPairwise(copy, hc, invA, mixInvL);
      UnhashAll(copy, hc, invA);
    }

    /** param's reverse walk over the pairwise pass. */
    static method UndoPairwise(copy: array<u32>, hc0: u32, invA: u32, mixInvL: u32) returns (hc: u32)
      requires hc0 == HashConst(INIT_A, MULT_A, Square(copy.Length))
      requires invA == Pow(MULT_A, ALL_ONES) && mixInvL == Pow(MIX_MULT_L, ALL_ONES)
      modifies copy
      ensures copy[..] == UndoOps(old(copy[..]), Pairs(copy.Length), copy.Length)
      ensures hc == HashConst(INIT_A, MULT_A, copy.Length)
    {
      hide *;
      var n := copy.Length;
      ghost var target := UndoOps(copy[..], Pairs(n), n);
      PairsFacts(n);
      RowsUnfold(n, 0);
      hc := hc0;
      var s: nat := n;
      while s > 0
        invariant s <= n
        invariant UndoOps(copy[..], Rows(n, s), n) == target
        invariant hc == HashConst(INIT_A, MULT_A, n + |Rows(n, s)|)
      {
        hc := UndoRow(copy, s - 1, hc, invA, mixInvL, target);
        s := s - 1;
      }
      UndoOpsUnfold(copy[..], Rows(n, 0), n);
    }

    /** One source word of param's reverse walk, over the destinations from the last down. */
    static method UndoRow(copy: array<u32>, src: nat, hc0: u32, invA: u32, mixInvL: u32, ghost target: seq<u32>)
      returns (hc: u32)
      requires src < copy.Length
      requires UndoOps(copy[..], Rows(copy.Length, src + 1), copy.Length) == target
      requires hc0 == HashConst(INIT_A, MULT_A, copy.Length + |Rows(copy.Length, src + 1)|)
      requires invA == Pow(MULT_A, ALL_ONES) && mixInvL == Pow(MIX_MULT_L, ALL_ONES)
      modifies copy
      ensures UndoOps(copy[..], Rows(copy.Length, src), copy.Length) == target
      ensures hc == HashConst(INIT_A, MULT_A, copy.Length + |Rows(copy.Length, src)|)
    {
      hide *;
      var n := copy.Length;
      ghost var rem := Rows(n, src + 1);
      RowsUnfold(n, src + 1);
      RowUnfold(n, src, 0);
      assert Rows(n, src) + Row(n, src, 0) == Rows(n, src);
      hc := hc0;
      var d: nat := n;
      while d > 0
        invariant d <= n
        invariant rem == Rows(n, src) + Row(n, src, d)
        invariant UndoOps(copy[..], rem, n) == target
        invariant hc == HashConst(INIT_A, MULT_A, n + |rem|)
      {
        RowUnfold(n, src, d);
        if src != d - 1 {
          UndoOpsUnfold(copy[..], rem, n);
          PairOperand(copy[..], src, d - 1);
          UndoStep(copy, src, d - 1, rem, hc, invA, mixInvL);
          HashConstBack(n + |rem| - 1);
          hc := Mul(hc, invA);
          rem := rem[..|rem| - 1];
        }
        d := d - 1;
      }
    }

    /** One step of UndoPairwise: undo `dest = mix(dest, hash(src))`. */
    static method UndoStep(copy: array<u32>, src: nat, dest: nat, ghost rem: seq<Op>, hc: u32, invA: u32, mixInvL: u32)
      requires |rem| > 0
      requires rem[|rem| - 1] == Pair(src, dest) && ValidOp(Pair(src, dest), copy.Length)
      requires hc == HashConst(INIT_A, MULT_A, copy.Length + |rem|)
      requires invA == Pow(MULT_A, ALL_ONES) && mixInvL == Pow(MIX_MULT_L, ALL_ONES)
      modifies copy
      ensures copy[..] == UndoOp(old(copy[..]), Pair(src, dest), copy.Length + |rem| - 1)
    {
      hide Pow;
      ghost var key := copy.Length + |rem| - 1;
      var revhashed := copy[src];
      var multConst := hc;
      var hcPrev := Mul(hc, invA);
      HashConstBack(key);
      HashConstStep(INIT_A, MULT_A, key);
      revhashed := XorWord(revhashed, hcPrev);
      revhashed := Mul(revhashed, multConst);
      revhashed := XorShift(revhashed);
      assert revhashed == KeyedHash(copy[src], key);
      var unmixed := copy[dest];
      unmixed := XorShift(unmixed);
      unmixed := Add(unmixed, Mul(MIX_MULT_R, revhashed));
      unmixed := Mul(unmixed, mixInvL);
      copy[dest] := unmixed;
    }

    /** param's reverse walk over the initial fill. */
    static method UnhashAll(copy: array<u32>, hc0: u32, invA: u32)
      requires hc0 == HashConst(INIT_A, MULT_A, copy.Length)
      requires invA == Pow(MULT_A, ALL_ONES)
      modifies copy
      ensures copy[..] == UnFill(old(copy[..]))
    {
      hide Pow;
      var n := copy.Length;
      ghost var undone := copy[..];
      var hc := hc0;
      var i: nat := n;
      while i > 0
        invariant i <= n
        invariant hc == HashConst(INIT_A, MULT_A, i)
        invariant forall k :: 0 <= k < i ==> copy[k] == undone[k]
        invariant forall k :: i <= k < n ==> copy[k] == UnHash(undone[k], k)
      {
        var unhashed := copy[i - 1];
        unhashed := XorShift(unhashed);
        var inv := FastExp(hc, ALL_ONES);
        unhashed := Mul(unhashed, inv);
        HashConstBack(i - 1);
        hc := Mul(hc, invA);
        unhashed := XorWord(unhashed, hc);
        copy[i - 1] := unhashed;
        i := i - 1;
      }
    }
  }
}
