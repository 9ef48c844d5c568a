/**
 * complementary_multiply_with_carry_engine
 * (xoroshiro/complementary_multiply_with_carry.hpp): Marsaglia's
 * multiply-with-carry generator, plain or complementary, over a ring Q of
 * CYCLE 32-bit words with a cursor i and a carry.  A step moves the cursor,
 * forms t = A * Q[i] + carry in 64 bits, and splits t into a new carry and
 * a word x so that t == carry * (2^32 - 1) + x; the word stored in Q[i] and
 * returned is x, or 0xFFFFFFFE - x for the complementary engine.
 *
 * discard(z) is modelled as written: it moves the cursor and the carry but
 * never writes Q, so it is not z steps (see DiscardIsNotStepping).
 */
module Cmwc {
  import opened Bits
  import opened Word32
  import Word64

  /** The template parameters CMWC_CYCLE, CMWC_C_MAX, A and is_complementary (w is 32 for all). */
  datatype Config = Config(cycle: nat, cMax: u32, a: Word64.u64, complementary: bool)

  const MWC256: Config := Config(256, 809430660, 1540315826, false)
  const CMWC4: Config := Config(4, 123, 987651670, true)
  const CMWC8: Config := Config(8, 123, 987651386, true)
  const CMWC16: Config := Config(16, 123, 987651178, true)
  const CMWC32: Config := Config(32, 123, 987655670, true)
  const CMWC64: Config := Config(64, 123, 987651206, true)
  const CMWC128: Config := Config(128, 123, 987688302, true)
  const CMWC256: Config := Config(256, 123, 987662290, true)
  const CMWC512: Config := Config(512, 123, 123462658, true)
  const CMWC1024: Config := Config(1024, 123, 5555698, true)
  const CMWC2048: Config := Config(2048, 123, 1030770, true)
  const CMWC4096: Config := Config(4096, 809430660, 18782, true)

  /** The instantiations the header defines. */
  predicate Shipped(cfg: Config)
  {
    cfg == MWC256 || cfg == CMWC4 || cfg == CMWC8 || cfg == CMWC16 || cfg == CMWC32 ||
    cfg == CMWC64 || cfg == CMWC128 || cfg == CMWC256 || cfg == CMWC512 ||
    cfg == CMWC1024 || cfg == CMWC2048 || cfg == CMWC4096
  }

  /** Every instantiation has a ring of at least four words and a multiplier below 2^32. */
  lemma ShippedConfigs(cfg: Config)
    requires Shipped(cfg)
    ensures cfg.cycle >= 4 && 0 < cfg.a < MOD
  {
  }

  /** The engine's state: the ring Q, the cursor _i and the carry _carry. */
  datatype State = State(q: seq<u32>, i: nat, carry: u32)

  predicate ValidState(cfg: Config, s: State)
  {
    cfg.cycle >= 1 && |s.q| == cfg.cycle && s.i < cfg.cycle
  }

  /** (i + 1) & (CYCLE - 1), written for the ring as a wrap to 0 after the last word. */
  function NextIndex(i: nat, cycle: nat): (r: nat)
    requires i < cycle
    ensures r < cycle && r == (i + 1) % cycle
  {
    if i + 1 < cycle then i + 1 else 0
  }

  // ---------------------------------------------------------------------
  // One step

  /** t = A * Q[i] + carry, computed in 64 bits. */
  function Product(a: Word64.u64, q: u32, c: u32): Word64.u64
  {
    (a * q + c) % Word64.MOD64
  }

  /** The word and the carry a step produces. */
  datatype Mwc = Mwc(x: u32, carry: u32)

  /** carry = t >> 32; x = uint32(t + carry); if (x < carry) { ++x; ++carry; }. */
  function Split(t: Word64.u64): Mwc
  {
    var c1 := t / MOD;
    var x := (t + c1) % MOD;
    if x < c1 then Mwc((x + 1) % MOD, (c1 + 1) % MOD) else Mwc(x, c1)
  }

  /** The multiply-with-carry of one step: A * Q[i] + carry, split. */
  function MultiplyWithCarry(a: Word64.u64, q: u32, c: u32): Mwc
  {
    Split(Product(a, q, c))
  }

  /** With a multiplier below 2^32 nothing wraps: t is A * q + c exactly. */
  lemma ProductExact(a: Word64.u64, q: u32, c: u32)
    requires a < MOD
    ensures Product(a, q, c) == a * q + c <= (a + 1) * (MOD - 1)
  {
    MulMono(q, MOD - 1, a);
    assert a * q <= (MOD - 1) * a;
  }

  /**
   * Splitting t <= (a + 1) * (2^32 - 1) gives its quotient and remainder
   * by 2^32 - 1, with a quotient of at most a.
   */
  lemma SplitMeaning(t: Word64.u64, a: nat)
    requires a < MOD && t <= (a + 1) * (MOD - 1)
    ensures t == Split(t).carry * (MOD - 1) + Split(t).x && Split(t).carry <= a
  {
    var c1, low := t / MOD, t % MOD;
    assert t == c1 * MOD + low;
    assert c1 <= a;
    ModAddMultiple(c1, low + c1, MOD);
    if low + c1 >= MOD {
      DivModUnique(low + c1, MOD, 1, low + c1 - MOD);
      assert c1 < a;
    } else {
      DivModUnique(low + c1, MOD, 0, low + c1);
    }
  }

  /**
   * What a step computes: the new carry and x are the quotient and the
   * remainder of A * q + c divided by 2^32 - 1, and the carry never
   * exceeds the multiplier, whatever carry it starts from.
   */
  lemma MultiplyWithCarryMeaning(a: Word64.u64, q: u32, c: u32)
    requires a < MOD
    ensures var r := MultiplyWithCarry(a, q, c);
      a * q + c == r.carry * (MOD - 1) + r.x && r.carry <= a
  {
    ProductExact(a, q, c);
    SplitMeaning(Product(a, q, c), a);
  }

  /** The word stored in Q[i] and returned: m - x (m = 0xFFFFFFFE) when complementary, x otherwise. */
  function Stored(cfg: Config, x: u32): u32
  {
    if cfg.complementary then Sub(0xFFFF_FFFE, x) else x
  }

  /** The x a stored word came from. */
  function Unstored(cfg: Config, y: u32): u32
  {
    if cfg.complementary then Sub(0xFFFF_FFFE, y) else y
  }

  /** The complement m - x loses nothing: x is recovered from the stored word. */
  lemma UnstoredStored(cfg: Config, x: u32)
    ensures Unstored(cfg, Stored(cfg, x)) == x
  {
    if cfg.complementary {
      var y := Sub(0xFFFF_FFFE, x);
      var m: int := 0xFFFF_FFFE;
      var q := (m - x) / MOD;
      assert m - x == q * MOD + y;
      assert m - y == x + q * MOD;
      ModAddMultiple(q, x, MOD);
    }
  }

  /** operator(): the cursor moves on, and only the word under it is rewritten. */
  function Step(cfg: Config, s: State): (r: State)
    requires ValidState(cfg, s)
    ensures ValidState(cfg, r) && r.i == (s.i + 1) % cfg.cycle
    ensures forall k :: 0 <= k < |s.q| && k != r.i ==> r.q[k] == s.q[k]
  {
    var i := NextIndex(s.i, cfg.cycle);
    var m := MultiplyWithCarry(cfg.a, s.q[i], s.carry);
    State(s.q[i := Stored(cfg, m.x)], i, m.carry)
  }

  /** The value operator() returns: the word it has just stored. */
  function Output(cfg: Config, s: State): u32
    requires ValidState(cfg, s)
  {
    var n := Step(cfg, s);
    n.q[n.i]
  }

  function StepN(cfg: Config, s: State, n: nat): (r: State)
    requires ValidState(cfg, s)
    ensures ValidState(cfg, r)
  {
    if n == 0 then s else Step(cfg, StepN(cfg, s, n - 1))
  }

  /** The next n values operator() returns. */
  function Outputs(cfg: Config, s: State, n: nat): (r: seq<u32>)
    requires ValidState(cfg, s)
    ensures |r| == n
    decreases n
  {
    if n == 0 then [] else [Output(cfg, s)] + Outputs(cfg, Step(cfg, s), n - 1)
  }

  /**
   * A step keeps the carry within the multiplier, and the word it stores
   * gives back the x that, with the new carry, accounts for
   * A * Q[i] + carry exactly.
   */
  lemma StepCarry(cfg: Config, s: State)
    requires ValidState(cfg, s) && cfg.a < MOD
    ensures var r := Step(cfg, s);
      r.carry <= cfg.a &&
      cfg.a * s.q[r.i] + s.carry == r.carry * (MOD - 1) + Unstored(cfg, r.q[r.i])
  {
    hide Split, Product;
    var i := NextIndex(s.i, cfg.cycle);
    var m := MultiplyWithCarry(cfg.a, s.q[i], s.carry);
    MultiplyWithCarryMeaning(cfg.a, s.q[i], s.carry);
    UnstoredStored(cfg, m.x);
  }

  /** Stepping z times and then n times gives the last n of z + n outputs. */
  lemma {:induction false} OutputsAfter(cfg: Config, s: State, z: nat, n: nat)
    requires ValidState(cfg, s)
    ensures Outputs(cfg, StepN(cfg, s, z), n) == Outputs(cfg, s, z + n)[z..]
    decreases z
  {
    hide Step, Output;
    if z > 0 {
      OutputsAfter(cfg, Step(cfg, s), z - 1, n);
      StepNFirst(cfg, s, z - 1);
    }
  }

  lemma {:induction false} StepNFirst(cfg: Config, s: State, n: nat)
    requires ValidState(cfg, s)
    ensures StepN(cfg, Step(cfg, s), n) == StepN(cfg, s, n + 1)
  {
    hide Step;
    if n > 0 {
      StepNFirst(cfg, s, n - 1);
    }
  }

  // ---------------------------------------------------------------------
  // discard, as written

  /**
   * One pass of discard's loop: _carry = t >> 32, then
   * _carry += ((t + _carry) < _carry) with the sum taken in 64 bits; Q is
   * not written.
   */
  function DiscardStep(cfg: Config, s: State): (r: State)
    requires ValidState(cfg, s)
    ensures ValidState(cfg, r)
  {
    var i := NextIndex(s.i, cfg.cycle);
    var t := Product(cfg.a, s.q[i], s.carry);
    var c1 := t / MOD;
    State(s.q, i, (c1 + if (t + c1) % Word64.MOD64 < c1 then 1 else 0) % MOD)
  }

  function DiscardN(cfg: Config, s: State, z: nat): (r: State)
    requires ValidState(cfg, s)
    ensures ValidState(cfg, r)
  {
    if z == 0 then s else DiscardStep(cfg, DiscardN(cfg, s, z - 1))
  }

  lemma ModSucc(n: nat, m: nat)
    requires m >= 1
    ensures NextIndex(n % m, m) == (n + 1) % m
  {
    var q, r := n / m, n % m;
    assert n == q * m + r;
    if r + 1 < m {
      DivModUnique(n + 1, m, q, r + 1);
    } else {
      DivModUnique(n + 1, m, q + 1, 0);
    }
  }

  /** discard(z) leaves the ring as it is and moves the cursor z places. */
  lemma {:induction false} DiscardLeavesRing(cfg: Config, s: State, z: nat)
    requires ValidState(cfg, s)
    ensures DiscardN(cfg, s, z).q == s.q && DiscardN(cfg, s, z).i == (s.i + z) % cfg.cycle
  {
    if z == 0 {
      DivModUnique(s.i, cfg.cycle, 0, s.i);
    } else {
      DiscardLeavesRing(cfg, s, z - 1);
      ModSucc(s.i + z - 1, cfg.cycle);
    }
  }

  /** warmup(), discard(4 * CYCLE), brings the cursor back to where it was. */
  lemma WarmupKeepsCursor(cfg: Config, s: State)
    requires ValidState(cfg, s)
    ensures DiscardN(cfg, s, 4 * cfg.cycle).q == s.q && DiscardN(cfg, s, 4 * cfg.cycle).i == s.i
  {
    DiscardLeavesRing(cfg, s, 4 * cfg.cycle);
    ModAddMultiple(4, s.i, cfg.cycle);
    DivModUnique(s.i, cfg.cycle, 0, s.i);
  }

  /**
   * With a multiplier below 2^32 the 64-bit overflow test of discard never
   * fires, so its carry is plain t >> 32, without the x < carry correction
   * a step makes.
   */
  lemma DiscardTestNeverFires(cfg: Config, s: State)
    requires ValidState(cfg, s) && cfg.a < MOD
    ensures var i := NextIndex(s.i, cfg.cycle);
      DiscardStep(cfg, s).carry == Product(cfg.a, s.q[i], s.carry) / MOD
  {
    var i := NextIndex(s.i, cfg.cycle);
    ProductExact(cfg.a, s.q[i], s.carry);
  }

  /**
   * discard(1) is not one call of operator(): on cmwc4 from the ring
   * [0, 0, 0, 0] with cursor 3 and carry 1, the call stores 0xFFFFFFFD in
   * Q[0] while discard leaves it 0, and the fourth value drawn afterwards
   * differs.
   */
  lemma DiscardIsNotStepping()
    ensures var s := State([0, 0, 0, 0], 3, 1);
      DiscardN(CMWC4, s, 1).q != StepN(CMWC4, s, 1).q &&
      Outputs(CMWC4, DiscardN(CMWC4, s, 1), 4) != Outputs(CMWC4, StepN(CMWC4, s, 1), 4)
  {
    var s := State([0, 0, 0, 0], 3, 1);
    var d, c := DiscardN(CMWC4, s, 1), StepN(CMWC4, s, 1);
    assert MultiplyWithCarry(CMWC4.a, 0, 1) == Mwc(1, 0);
    assert d == State([0, 0, 0, 0], 0, 0);
    assert c == State([0xFFFF_FFFD, 0, 0, 0], 0, 0);
    assert MultiplyWithCarry(CMWC4.a, 0, 0) == Mwc(0, 0);
    var d1, c1 := Step(CMWC4, d), Step(CMWC4, c);
    assert d1 == State([0, 0xFFFF_FFFE, 0, 0], 1, 0);
    assert c1 == State([0xFFFF_FFFD, 0xFFFF_FFFE, 0, 0], 1, 0);
    var d2, c2 := Step(CMWC4, d1), Step(CMWC4, c1);
    assert d2 == State([0, 0xFFFF_FFFE, 0xFFFF_FFFE, 0], 2, 0);
    assert c2 == State([0xFFFF_FFFD, 0xFFFF_FFFE, 0xFFFF_FFFE, 0], 2, 0);
    var d3, c3 := Step(CMWC4, d2), Step(CMWC4, c2);
    assert d3 == State([0, 0xFFFF_FFFE, 0xFFFF_FFFE, 0xFFFF_FFFE], 3, 0);
    assert c3 == State([0xFFFF_FFFD, 0xFFFF_FFFE, 0xFFFF_FFFE, 0xFFFF_FFFE], 3, 0);
    assert Product(CMWC4.a, 0xFFFF_FFFD, 0) == 4241931619526829310;
    assert MultiplyWithCarry(CMWC4.a, 0xFFFF_FFFD, 0) == Mwc(2319663955, 987651669);
    assert Output(CMWC4, d3) == 0xFFFF_FFFE;
    assert Output(CMWC4, c3) == 1975303339;
    assert Outputs(CMWC4, d, 4)[3] != Outputs(CMWC4, c, 4)[3];
  }

  // ---------------------------------------------------------------------
  // The ring read from the cursor

  /** Q[i], Q[i + 1], ..., Q[CYCLE - 1], Q[0], ..., Q[i - 1]: what operator<< writes. */
  function View(q: seq<u32>, i: nat): (r: seq<u32>)
    requires i <= |q|
    ensures |r| == |q|
    ensures forall k :: 0 <= k < |q| ==> r[k] == if i + k < |q| then q[i + k] else q[i + k - |q|]
  {
    q[i..] + q[..i]
  }

  /** Two states that read the same from their cursors and carry the same. */
  predicate SameView(cfg: Config, s: State, u: State)
    requires ValidState(cfg, s) && ValidState(cfg, u)
  {
    View(s.q, s.i) == View(u.q, u.i) && s.carry == u.carry
  }

  /** Where a step leaves the view, with cursor at least 2: [stored] + v[2..] + [v[0]]. */
  lemma StepView(cfg: Config, s: State)
    requires ValidState(cfg, s) && cfg.cycle >= 2
    ensures var v, r := View(s.q, s.i), Step(cfg, s);
      var m := MultiplyWithCarry(cfg.a, v[1], s.carry);
      r.carry == m.carry && View(r.q, r.i) == [Stored(cfg, m.x)] + v[2..] + [v[0]]
  {
    var v, r := View(s.q, s.i), Step(cfg, s);
    var w := View(r.q, r.i);
    var e := [Stored(cfg, MultiplyWithCarry(cfg.a, v[1], s.carry).x)] + v[2..] + [v[0]];
    assert s.q[r.i] == v[1];
    forall k | 0 <= k < cfg.cycle
      ensures w[k] == e[k]
    {
      if k == cfg.cycle - 1 {
        assert w[k] == s.q[s.i];
      } else if k > 0 {
        assert w[k] == v[k + 1];
      }
    }
  }

  /** States that read the same give the same value and again read the same. */
  lemma StepSameView(cfg: Config, s: State, u: State)
    requires ValidState(cfg, s) && ValidState(cfg, u) && SameView(cfg, s, u)
    ensures SameView(cfg, Step(cfg, s), Step(cfg, u)) && Output(cfg, s) == Output(cfg, u)
  {
    if cfg.cycle == 1 {
      assert s.q == View(s.q, s.i) && u.q == View(u.q, u.i);
    } else {
      StepView(cfg, s);
      StepView(cfg, u);
      var rs, ru := Step(cfg, s), Step(cfg, u);
      assert rs.q[rs.i] == View(rs.q, rs.i)[0];
      assert ru.q[ru.i] == View(ru.q, ru.i)[0];
    }
  }

  /** So they produce the same values from then on. */
  lemma {:induction false} OutputsSameView(cfg: Config, s: State, u: State, n: nat)
    requires ValidState(cfg, s) && ValidState(cfg, u) && SameView(cfg, s, u)
    ensures Outputs(cfg, s, n) == Outputs(cfg, u, n)
    decreases n
  {
    hide Step, Output;
    if n > 0 {
      StepSameView(cfg, s, u);
      OutputsSameView(cfg, Step(cfg, s), Step(cfg, u), n - 1);
    }
  }

  // ---------------------------------------------------------------------
  // The engine

  class Engine {
    const cfg: Config
    /** _Q. */
    const Q: array<u32>
    /** _i. */
    var i: nat
    /** _carry. */
    var carry: u32

    predicate Valid()
      reads this
    {
      cfg.cycle >= 1 && Q.Length == cfg.cycle && i < cfg.cycle
    }

    function AsState(): (r: State)
      reads this, Q
      requires Valid()
      ensures ValidState(cfg, r)
    {
      State(Q[..], i, carry)
    }

    /**
     * Any seeding path: the seeding helpers fill Q with `fill` and draw the
     * carry `c`; the cursor is set to CYCLE - 1 and the engine warmed up.
     */
    constructor (cfg: Config, fill: seq<u32>, c: u32)
      requires cfg.cycle >= 1 && |fill| == cfg.cycle
      ensures Valid() && this.cfg == cfg && fresh(Q)
      ensures AsState() == DiscardN(cfg, State(fill, cfg.cycle - 1, c), 4 * cfg.cycle)
      ensures Q[..] == fill && i == cfg.cycle - 1
    {
      this.cfg := cfg;
      Q := new u32[cfg.cycle];
      i := 0;
      carry := 0;
      new;
      Seed(fill, c);
    }

    /** seed(seq) and seed(first, last) once the words are drawn. */
    method Seed(fill: seq<u32>, c: u32)
      requires cfg.cycle >= 1 && Q.Length == cfg.cycle && |fill| == cfg.cycle
      modifies this, Q
      ensures Valid() && AsState() == DiscardN(cfg, State(fill, cfg.cycle - 1, c), 4 * cfg.cycle)
      ensures Q[..] == fill && i == cfg.cycle - 1
    {
      for k := 0 to cfg.cycle
        invariant Q[..k] == fill[..k]
      {
        Q[k] := fill[k];
      }
      carry := c;
      i := cfg.cycle - 1;
      Warmup();
      WarmupKeepsCursor(cfg, State(fill, cfg.cycle - 1, c));
    }

    /** operator(): both overloads, told apart by is_complementary. */
    method Call() returns (r: u32)
      requires Valid()
      modifies this, Q
      ensures Valid() && AsState() == Step(cfg, old(AsState()))
      ensures r == Output(cfg, old(AsState()))
    {
      i := (i + 1) % cfg.cycle;
      var t := Product(cfg.a, Q[i], carry);
      carry := t / MOD;
      var x := (t + carry) % MOD;
      if x < carry {
        x, carry := (x + 1) % MOD, (carry + 1) % MOD;
      }
      r := Stored(cfg, x);
      Q[i] := r;
    }

    /** discard(z), as written: Q is outside what it may change. */
    method Discard(z: nat)
      requires Valid()
      modifies this
      ensures Valid() && AsState() == DiscardN(cfg, old(AsState()), z)
    {
      hide Product;
      var n: nat := z;
      while n > 0
        invariant n <= z && Valid() && AsState() == DiscardN(cfg, old(AsState()), z - n)
      {
        ghost var before := AsState();
        i := (i + 1) % cfg.cycle;
        var t := Product(cfg.a, Q[i], carry);
        carry := t / MOD;
        carry := (carry + if (t + carry) % Word64.MOD64 < carry then 1 else 0) % MOD;
        assert AsState() == DiscardStep(cfg, before);
        n := n - 1;
      }
    }

    /** warmup(): discard(4 * CYCLE). */
    method Warmup()
      requires Valid()
      modifies this
      ensures Valid() && AsState() == DiscardN(cfg, old(AsState()), 4 * cfg.cycle)
    {
      Discard(4 * cfg.cycle);
    }

    /** What discard(z) is documented to do: z calls of operator(). */
    method DiscardBySteps(z: nat)
      requires Valid()
      modifies this, Q
      ensures Valid() && AsState() == StepN(cfg, old(AsState()), z)
    {
      for k := 0 to z
        invariant Valid() && AsState() == StepN(cfg, old(AsState()), k)
      {
        var _ := Call();
      }
    }

    /** operator<<: the ring from the cursor on, wrapping, then the carry. */
    method Write() returns (words: seq<u32>, c: u32)
      requires Valid()
      ensures words == View(Q[..], i) && c == carry
    {
      words := [];
      var k := i;
      while k < cfg.cycle
        invariant i <= k <= cfg.cycle && words == Q[i..k]
      {
        words := words + [Q[k]];
        k := k + 1;
      }
      k := 0;
      while k < i
        invariant 0 <= k <= i && words == Q[i..] + Q[..k]
      {
        words := words + [Q[k]];
        k := k + 1;
      }
      c := carry;
    }

    /** operator>>: the words in order, the carry, and the cursor at 0. */
    method Read(words: seq<u32>, c: u32)
      requires Valid() && |words| == cfg.cycle
      modifies this, Q
      ensures Valid() && Q[..] == words && carry == c && i == 0
    {
      for k := 0 to cfg.cycle
        invariant Q[..k] == words[..k]
      {
        Q[k] := words[k];
      }
      carry := c;
      i := 0;
    }

    static function Min(): u32 { 0 }

    /** low_bits_mask_t<32>::sig_bits. */
    static function Max(): u32 { ALL_ONES }
  }

  /**
   * max() is the 32-bit mask 2^w - 1 with w = 32, and every value
   * operator() returns lies in [min(), max()].
   */
  lemma OutputsWithinRange(cfg: Config, s: State, n: nat)
    requires ValidState(cfg, s)
    ensures Engine.Min() == 0 && Engine.Max() == Exp2(32) - 1
    ensures forall k :: 0 <= k < n ==> Engine.Min() <= Outputs(cfg, s, n)[k] <= Engine.Max()
  {
    Exp2Values();
  }

  /** Writing an engine and reading it into another gives one that produces the same values. */
  method WriteReadRoundTrip(x: Engine, y: Engine, n: nat)
    requires x.Valid() && y.Valid() && y.cfg == x.cfg && x != y && x.Q != y.Q
    modifies y, y.Q
    ensures y.Valid() && Outputs(y.cfg, y.AsState(), n) == Outputs(x.cfg, x.AsState(), n)
  {
    var words, c := x.Write();
    y.Read(words, c);
    assert View(y.Q[..], 0) == y.Q[..];
    OutputsSameView(x.cfg, y.AsState(), x.AsState(), n);
  }
}
