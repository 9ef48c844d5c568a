/**
 * xorshift1024star (xoroshiro128plus/xoroshiro.hpp): sixteen state words
 * used as a ring, with a cursor _p.  Its abstract state is the ring read
 * from the cursor (the view): a step rewrites only the word after the
 * cursor and moves the cursor onto it, equality compares the two views,
 * writing emits the view, and reading stores a view with the cursor at 0.
 * A step maps the all-zero ring, and only it, to the all-zero ring.
 */
module Xorshift1024 {
  import opened Bits
  import Word32
  import opened Word64
  import opened SplitMix
  import opened ArraySeeding

  const WARMUP: nat := 64

  /** An index into the ring taken modulo 16, for indices below 32. */
  function Wrap(n: nat): (r: nat)
    requires n < 32
    ensures r == n % 16
  {
    if n < 16 then n else n - 16
  }

  /** The ring read from cursor p: words[p], words[p + 1], ..., wrapping at 16. */
  function View(words: seq<u64>, p: nat): (r: seq<u64>)
    requires |words| == 16 && p < 16
    ensures |r| == 16
    ensures forall j :: 0 <= j < 16 ==> r[j] == words[(p + j) % 16]
  {
    words[p..] + words[..p]
  }

  /**
   * The word next() stores: with s1 ^= s1 << 31, it is
   * s1 ^ s0 ^ (s1 >> 11) ^ (s0 >> 30).
   */
  function Mix(s1: u64, s0: u64): u64
  {
    var a := XorShl(s1, 31);
    XorW(XorW(XorW(a, s0), Shr(a, 11)), Shr(s0, 30))
  }

  /** next() on the view: the mixed word comes first, the old first word goes last. */
  function ViewStep(v: seq<u64>): (r: seq<u64>)
    requires |v| == 16
    ensures |r| == 16
  {
    [Mix(v[1], v[0])] + v[2..] + [v[0]]
  }

  function ViewStepN(v: seq<u64>, n: nat): (r: seq<u64>)
    requires |v| == 16
    ensures |r| == 16
  {
    if n == 0 then v else ViewStep(ViewStepN(v, n - 1))
  }

  /** operator(): steps, then returns the word at the new cursor times the star multiplier. */
  function Outputs1024(v: seq<u64>, n: nat): (r: seq<u64>)
    requires |v| == 16
    ensures |r| == n
    decreases n
  {
    if n == 0 then [] else [Mul64(ViewStep(v)[0], STAR_MUL)] + Outputs1024(ViewStep(v), n - 1)
  }

  /** A step on the ring is a step on the view. */
  lemma NextView(w: seq<u64>, p: nat)
    requires |w| == 16 && p < 16
    ensures View(w[(p + 1) % 16 := Mix(w[(p + 1) % 16], w[p])], (p + 1) % 16) == ViewStep(View(w, p))
  {
    hide Mix;
    var q := (p + 1) % 16;
    var w' := w[q := Mix(w[q], w[p])];
    var a, b := View(w', q), ViewStep(View(w, p));
    forall j | 0 <= j < 16
      ensures a[j] == b[j]
    {
      if j == 0 {
      } else if j < 15 {
        assert (q + j) % 16 == (p + (j + 1)) % 16;
      } else {
        assert (q + j) % 16 == p;
      }
    }
  }

  predicate AllZero16(v: seq<u64>)
  {
    forall j :: 0 <= j < |v| ==> v[j] == 0
  }

  /** The mixed word of a zero s0 is zero exactly when s1 is. */
  lemma MixZero(s1: u64)
    ensures Mix(s1, 0) == 0 <==> s1 == 0
  {
    var a := XorShl(s1, 31);
    XorWZero(a);
    XorWZero(XorShr(a, 11));
    assert Shr(0, 30) == 0;
    XorShrZero(a, 11);
    XorShlZero(s1, 31);
  }

  /** A step maps the all-zero ring, and only it, to the all-zero ring. */
  lemma ViewStepZero(v: seq<u64>)
    requires |v| == 16
    ensures AllZero16(ViewStep(v)) <==> AllZero16(v)
  {
    hide Mix;
    var r := ViewStep(v);
    assert r[0] == Mix(v[1], v[0]) && r[15] == v[0];
    assert forall j :: 1 <= j < 15 ==> r[j] == v[j + 1];
    if AllZero16(r) {
      assert forall j :: 2 <= j < 16 ==> v[j] == r[j - 1];
      MixZero(v[1]);
    }
    if AllZero16(v) {
      MixZero(0);
    }
  }

  lemma {:induction false} NonZeroForever(v: seq<u64>, n: nat)
    requires |v| == 16 && !AllZero16(v)
    ensures !AllZero16(ViewStepN(v, n))
  {
    hide ViewStep;
    if n > 0 {
      NonZeroForever(v, n - 1);
      ViewStepZero(ViewStepN(v, n - 1));
    }
  }

  // ---------------------------------------------------------------------
  // Jump

  /** The sixteen words of the jump polynomial. */
  const JUMP: seq<u64> := [
    0x84242F96ECA9C41D, 0xA3C65B8776F96855,
    0x5B34A39F070B5837, 0x4489AFFCE4F31A1E,
    0x2FFEEB0A48316F40, 0xDC2D9891FE68C022,
    0x3659132BB12FEA70, 0xAAC17D8EFA43CAB8,
    0xC4CB815590989B13, 0x5EE975283D71C93B,
    0x691548C86C1BD540, 0x7910C41D10A1E6A5,
    0x0B5FC64563B3E2A8, 0x047F7684E9FC949D,
    0xB99181F2D8F685CA, 0x284600E3F30E38C3
  ]

  /** Bit k of the 1024-bit jump polynomial: bit k % 64 of word k / 64. */
  predicate JumpBit(k: nat)
    requires k < 1024
  {
    Bit(JUMP[k / 64], k % 64)
  }

  /** The all-zero ring, the value t starts from once zero-initialised. */
  function Zeros(): (r: seq<u64>)
    ensures |r| == 16 && forall j :: 0 <= j < 16 ==> r[j] == 0
  {
    seq(16, j => 0)
  }

  function XorSeq(a: seq<u64>, b: seq<u64>): (r: seq<u64>)
    requires |a| == 16 && |b| == 16
    ensures |r| == 16 && forall j :: 0 <= j < 16 ==> r[j] == XorW(a[j], b[j])
  {
    seq(16, j requires 0 <= j < 16 => XorW(a[j], b[j]))
  }

  /**
   * The accumulator t of jump() after its first i steps, started from t0:
   * t0 XORed with the views StepN(v, k), k < i, whose bit k is set.
   */
  function JumpAccFrom(t0: seq<u64>, v: seq<u64>, i: nat): (r: seq<u64>)
    requires |t0| == 16 && |v| == 16 && i <= 1024
    ensures |r| == 16
  {
    if i == 0 then t0
    else if JumpBit(i - 1) then XorSeq(JumpAccFrom(t0, v, i - 1), ViewStepN(v, i - 1))
    else JumpAccFrom(t0, v, i - 1)
  }

  /** One jump, with the accumulator starting at zero. */
  function JumpOnce(v: seq<u64>): (r: seq<u64>)
    requires |v| == 16
    ensures |r| == 16
  {
    JumpAccFrom(Zeros(), v, 1024)
  }

  function JumpN(v: seq<u64>, z: nat): (r: seq<u64>)
    requires |v| == 16
    ensures |r| == 16
  {
    if z == 0 then v else JumpOnce(JumpN(v, z - 1))
  }

  lemma XorSeqAssoc(a: seq<u64>, b: seq<u64>, c: seq<u64>)
    requires |a| == 16 && |b| == 16 && |c| == 16
    ensures XorSeq(XorSeq(a, b), c) == XorSeq(a, XorSeq(b, c))
  {
    forall j | 0 <= j < 16
      ensures XorSeq(XorSeq(a, b), c)[j] == XorSeq(a, XorSeq(b, c))[j]
    {
      XorAssoc(a[j], b[j], c[j]);
    }
  }

  lemma XorSeqZeros(a: seq<u64>)
    requires |a| == 16
    ensures XorSeq(a, Zeros()) == a
  {
    forall j | 0 <= j < 16
      ensures XorSeq(a, Zeros())[j] == a[j]
    {
      XorWZero(a[j]);
    }
  }

  /**
   * As written, jump() starts from whatever the uninitialised t holds:
   * its result is that garbage XORed onto the true jump.
   */
  lemma {:induction false} JumpFromGarbage(t0: seq<u64>, v: seq<u64>, i: nat)
    requires |t0| == 16 && |v| == 16 && i <= 1024
    ensures JumpAccFrom(t0, v, i) == XorSeq(t0, JumpAccFrom(Zeros(), v, i))
  {
    hide XorSeq;
    if i == 0 {
      XorSeqZeros(t0);
    } else {
      JumpFromGarbage(t0, v, i - 1);
      if JumpBit(i - 1) {
        XorSeqAssoc(t0, JumpAccFrom(Zeros(), v, i - 1), ViewStepN(v, i - 1));
      }
    }
  }

  /** So any non-zero garbage in t gives a state other than the jump's. */
  lemma GarbageChangesJump(t0: seq<u64>, v: seq<u64>)
    requires |t0| == 16 && |v| == 16 && t0 != Zeros()
    ensures JumpAccFrom(t0, v, 1024) != JumpOnce(v)
  {
    JumpFromGarbage(t0, v, 1024);
    var x := JumpOnce(v);
    assert exists j :: 0 <= j < 16 && t0[j] != Zeros()[j];
    var j :| 0 <= j < 16 && t0[j] != Zeros()[j];
    XorSelfInverse(t0[j], x[j]);
    XorSelf(x[j]);
    assert XorSeq(t0, x)[j] != x[j];
  }

  /** Step 64 i + b of the accumulation looks at bit b of jump word i. */
  lemma JumpAccStep(v: seq<u64>, i: nat, b: nat)
    requires |v| == 16 && i < 16 && b < 64
    ensures JumpAccFrom(Zeros(), v, 64 * i + b + 1) ==
      if Bit(JUMP[i], b) then XorSeq(JumpAccFrom(Zeros(), v, 64 * i + b), ViewStepN(v, 64 * i + b))
      else JumpAccFrom(Zeros(), v, 64 * i + b)
  {
    hide XorSeq, ViewStepN, Bit;
    assert (64 * i + b) / 64 == i && (64 * i + b) % 64 == b;
  }

  // ---------------------------------------------------------------------
  // The engine

  class Engine1024 {
    /** _s. */
    const s: array<u64>
    /** _p. */
    var p: nat

    predicate Valid()
      reads this
    {
      s.Length == 16 && p < 16
    }

    function ViewOf(): (r: seq<u64>)
      reads this, s
      requires Valid()
      ensures |r| == 16
    {
      View(s[..], p)
    }

    /** The constructor from a value; the default constructor passes default_seed = 1. */
    constructor (value: u64)
      ensures Valid() && fresh(s) && p == 0
      ensures s[..] == Outputs(value, 16) && ViewOf() == Outputs(value, 16)
    {
      s := new u64[16];
      p := 0;
      new;
      Seed(value);
    }

    /** seed(value): _s[i] = hash(value + (i + 1) G), _p = 0, no warm-up. */
    method Seed(value: u64)
      requires s.Length == 16
      modifies this, s
      ensures Valid() && p == 0
      ensures s[..] == Outputs(value, 16) && ViewOf() == Outputs(value, 16)
    {
      hide Hash;
      var t := Add64(value, GOLDEN);
      s[0] := Hash(t);
      OutputsAt(value, 16, 0);
      for i := 1 to 16
        invariant t == Advance(value, i)
        invariant forall k :: 0 <= k < i ==> s[k] == Outputs(value, 16)[k]
      {
        t := Add64(t, GOLDEN);
        s[i] := Hash(t);
        OutputsAt(value, 16, i);
      }
      p := 0;
      assert s[..] == Outputs(value, 16);
    }

    /** next(): rewrites only the word after the cursor, and moves the cursor onto it. */
    method Next()
      requires Valid()
      modifies this, s
      ensures Valid() && p == (old(p) + 1) % 16
      ensures s[..] == old(s[..])[p := Mix(old(s[..])[p], old(s[p]))]
      ensures ViewOf() == ViewStep(old(ViewOf()))
    {
      hide Mix;
      var s0 := s[p];
      p := (p + 1) % 16;
      var s1 := s[p];
      s[p] := Mix(s1, s0);
      NextView(old(s[..]), old(p));
    }

    /** operator(). */
    method Call() returns (r: u64)
      requires Valid()
      modifies this, s
      ensures Valid() && ViewOf() == ViewStep(old(ViewOf()))
      ensures [r] == Outputs1024(old(ViewOf()), 1)
    {
      Next();
      r := Mul64(s[p], STAR_MUL);
    }

    /** discard(z). */
    method Discard(z: nat)
      requires Valid()
      modifies this, s
      ensures Valid() && ViewOf() == ViewStepN(old(ViewOf()), z)
    {
      for k := 0 to z
        invariant Valid() && ViewOf() == ViewStepN(old(ViewOf()), k)
      {
        Next();
      }
    }

    /** seed(seq): seed_array_non_zero_int over 32 words, _p = 0, then discard(64). */
    method SeedFromSeq(storage: seq<Word32.u32>, param: seq<Word32.u32>)
      requires Valid() && |storage| == 32
      modifies this, s
      ensures Valid() && ViewOf() == ViewStepN(SeedArrayResult(storage, param, 16), WARMUP)
      ensures !AllZero16(ViewOf())
    {
      hide ViewStepN, ViewStep, SeedArrayResult;
      SeedArrayNonZero(storage, param, s);
      SeedArrayNotAllZero(storage, param, 16);
      p := 0;
      assert ViewOf() == s[..];
      Discard(WARMUP);
      NonZeroForever(SeedArrayResult(storage, param, 16), WARMUP);
    }

    /** seed(first, last): fill_array_non_zero_int over 32 words, _p = 0, then discard(64). */
    method SeedFromRange(range: seq<int>) returns (r: FillOutcome)
      requires Valid()
      modifies this, s
      ensures Valid()
      ensures |range| < 32 ==> r == NotEnoughElements && s[..] == old(s[..]) && p == old(p)
      ensures |range| >= 32 ==> r == Consumed(32)
      ensures |range| >= 32 ==> ViewOf() == ViewStepN(FillArrayResult(range, 16), WARMUP)
      ensures |range| >= 32 ==> !AllZero16(ViewOf())
    {
      hide ViewStepN, ViewStep, FillArrayResult;
      r := FillArrayNonZero(range, s);
      if r.Consumed? {
        FillArrayNotAllZero(range, 16);
        p := 0;
        assert ViewOf() == s[..];
        Discard(WARMUP);
        NonZeroForever(FillArrayResult(range, 16), WARMUP);
      }
    }

    /**
     * jump(z), with t zero-initialised: z times, 1024 steps accumulating the
     * views at the set bits of the jump polynomial, then the accumulator
     * stored as the view.
     */
    method Jump(z: nat)
      requires Valid()
      modifies this, s
      ensures Valid() && ViewOf() == JumpN(old(ViewOf()), z)
    {
      for k := 0 to z
        invariant Valid() && ViewOf() == JumpN(old(ViewOf()), k)
      {
        JumpOne();
      }
    }

    method JumpOne()
      requires Valid()
      modifies this, s
      ensures Valid() && ViewOf() == JumpOnce(old(ViewOf()))
    {
      ghost var start := ViewOf();
      var t := new u64[16](j => 0);
      assert t[..] == JumpAccFrom(Zeros(), start, 0);
      hide JumpAccFrom, ViewStepN, ViewStep, Mix, XorSeq, Bit;
      for i := 0 to 16
        invariant Valid() && ViewOf() == ViewStepN(start, 64 * i)
        invariant t[..] == JumpAccFrom(Zeros(), start, 64 * i)
      {
        JumpWord(t, start, i);
      }
      StoreView(t);
    }

    /** for j < 16: _s[(j + _p) & 15] = t[j]; the cursor stays. */
    method StoreView(t: array<u64>)
      requires Valid() && t.Length == 16 && t != s
      modifies s
      ensures Valid() && ViewOf() == t[..]
    {
      for j := 0 to 16
        invariant forall k :: 0 <= k < j ==> s[(k + p) % 16] == t[k]
      {
        s[(j + p) % 16] := t[j];
      }
      assert ViewOf() == t[..];
    }

    /** The 64 steps of jump word i. */
    method JumpWord(t: array<u64>, ghost start: seq<u64>, i: nat)
      requires Valid() && t.Length == 16 && |start| == 16 && i < 16 && t != s
      requires ViewOf() == ViewStepN(start, 64 * i) && t[..] == JumpAccFrom(Zeros(), start, 64 * i)
      modifies this, s, t
      ensures Valid() && ViewOf() == ViewStepN(start, 64 * (i + 1))
      ensures t[..] == JumpAccFrom(Zeros(), start, 64 * (i + 1))
    {
      hide *;
      for b := 0 to 64
        invariant Valid() && ViewOf() == ViewStepN(start, 64 * i + b)
        invariant t[..] == JumpAccFrom(Zeros(), start, 64 * i + b)
      {
        JumpStep(t, start, i, b);
      }
    }

    /** Step b of jump word i: t ^= the view when the bit is set, then next(). */
    method JumpStep(t: array<u64>, ghost start: seq<u64>, i: nat, b: nat)
      requires Valid() && t.Length == 16 && |start| == 16 && i < 16 && b < 64 && t != s
      requires ViewOf() == ViewStepN(start, 64 * i + b) && t[..] == JumpAccFrom(Zeros(), start, 64 * i + b)
      modifies this, s, t
      ensures Valid() && ViewOf() == ViewStepN(start, 64 * i + b + 1)
      ensures t[..] == JumpAccFrom(Zeros(), start, 64 * i + b + 1)
    {
      hide ViewStep, JumpAccFrom, XorSeq, Bit, Mix;
      JumpAccStep(start, i, b);
      if Bit(JUMP[i], b) {
        XorViewInto(t);
      }
      Next();
    }

    /** for j < 16: t[j] ^= _s[(j + _p) & 15]. */
    method XorViewInto(t: array<u64>)
      requires Valid() && t.Length == 16 && t != s
      modifies t
      ensures t[..] == XorSeq(old(t[..]), ViewOf())
    {
      for j := 0 to 16
        invariant forall k :: 0 <= k < j ==> t[k] == XorW(old(t[k]), ViewOf()[k])
        invariant forall k :: j <= k < 16 ==> t[k] == old(t[k])
      {
        t[j] := XorW(t[j], s[(j + p) % 16]);
      }
    }

    /** operator==: compares the two rings, each read from its own cursor. */
    method Equals(other: Engine1024) returns (r: bool)
      requires Valid() && other.Valid()
      ensures r <==> ViewOf() == other.ViewOf()
    {
      ghost var mine, theirs := ViewOf(), other.ViewOf();
      var i, j := p, other.p;
      while i < 16
        invariant p <= i <= 16 && j == Wrap(other.p + (i - p))
        invariant forall k :: 0 <= k < i - p ==> mine[k] == theirs[k]
      {
        if s[i] != other.s[j] {
          assert mine[i - p] != theirs[i - p];
          return false;
        }
        i, j := i + 1, (j + 1) % 16;
      }
      i := 0;
      while i < p
        invariant 0 <= i <= p && j == Wrap(other.p + (16 - p) + i)
        invariant forall k :: 0 <= k < 16 - p + i ==> mine[k] == theirs[k]
      {
        if s[i] != other.s[j] {
          assert mine[16 - p + i] != theirs[16 - p + i];
          return false;
        }
        i, j := i + 1, (j + 1) % 16;
      }
      return true;
    }

    /** operator<<: the sixteen words from the cursor on, wrapping. */
    method Write() returns (r: seq<u64>)
      requires Valid()
      ensures r == ViewOf()
    {
      r := [];
      var i := p;
      while i < 16
        invariant p <= i <= 16 && r == s[p..i]
      {
        r := r + [s[i]];
        i := i + 1;
      }
      i := 0;
      while i < p
        invariant 0 <= i <= p && r == s[p..] + s[..i]
      {
        r := r + [s[i]];
        i := i + 1;
      }
    }

    /** operator>>: the sixteen words in order, and the cursor back at 0. */
    method Read(words: seq<u64>)
      requires Valid() && |words| == 16
      modifies this, s
      ensures Valid() && p == 0 && s[..] == words && ViewOf() == words
    {
      for i := 0 to 16
        invariant forall k :: 0 <= k < i ==> s[k] == words[k]
      {
        s[i] := words[i];
      }
      p := 0;
      assert s[..] == words;
    }

    static function Min(): u64 { 0 }

    static function Max(): u64 { MAX64 }
  }

  /**
   * Writing an engine and reading the words back gives an engine equal to
   * it, which therefore produces the same outputs.
   */
  method WriteReadRoundTrip(x: Engine1024, y: Engine1024, n: nat) returns (same: bool)
    requires x.Valid() && y.Valid() && x.s != y.s && x != y
    modifies y, y.s
    ensures same
    ensures y.Valid() && Outputs1024(y.ViewOf(), n) == Outputs1024(x.ViewOf(), n)
  {
    var words := x.Write();
    y.Read(words);
    same := y.Equals(x);
  }
}
