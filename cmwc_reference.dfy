/**
 * The C99 reference CMWC4096 of cmwc/main.c: a struct cmwc_state with a
 * 4096-word ring Q, a carry c and a cursor i, the step randCMWC, and
 * initCMWC, which fills the ring and draws a carry below CMWC_C_MAX from
 * rand32.  rand32 is an oracle here: the words it returns are a parameter.
 * The step is proved to be the step of the cmwc4096 engine.
 */
module CmwcReference {
  import opened Word32
  import Cmwc

  const CMWC_CYCLE: nat := 4096
  const CMWC_C_MAX: u32 := 809430660

  /** struct cmwc_state. */
  class CmwcState {
    const Q: array<u32>
    var c: u32
    var i: nat

    predicate Valid()
      reads this
    {
      Q.Length == CMWC_CYCLE && i < CMWC_CYCLE
    }

    function AsState(): (r: Cmwc.State)
      reads this, Q
    {
      Cmwc.State(Q[..], i, c)
    }

    /** A struct whose fields are not yet set. */
    constructor ()
      ensures fresh(Q) && Q.Length == CMWC_CYCLE
    {
      Q := new u32[CMWC_CYCLE];
    }
  }

  /** randCMWC on a state value, with its own constants a = 18782 and m = 0xfffffffe. */
  function RandStep(s: Cmwc.State): (r: Cmwc.State)
    requires |s.q| == CMWC_CYCLE && s.i < CMWC_CYCLE
  {
    var a: int := 18782;
    var i := (s.i + 1) % CMWC_CYCLE;
    var t := (a * s.q[i] + s.carry) % 0x1_0000_0000_0000_0000;
    var c := t / MOD;
    var x := (t + c) % MOD;
    var (x', c') := if x < c then ((x + 1) % MOD, (c + 1) % MOD) else (x, c);
    Cmwc.State(s.q[i := (0xFFFF_FFFE - x') % MOD], i, c')
  }

  /**
   * The cross-check: on equal states randCMWC makes the same step as the
   * complementary operator() of cmwc4096, and so returns the same word.
   */
  lemma RandStepIsCmwc4096(s: Cmwc.State)
    requires |s.q| == CMWC_CYCLE && s.i < CMWC_CYCLE
    ensures Cmwc.ValidState(Cmwc.CMWC4096, s)
    ensures RandStep(s) == Cmwc.Step(Cmwc.CMWC4096, s)
    ensures RandStep(s).q[RandStep(s).i] == Cmwc.Output(Cmwc.CMWC4096, s)
  {
  }

  /** randCMWC: steps the state and returns the word it stores. */
  method RandCmwc(state: CmwcState) returns (r: u32)
    requires state.Valid()
    modifies state, state.Q
    ensures state.Valid() && state.AsState() == RandStep(old(state.AsState()))
    ensures r == state.Q[state.i]
  {
    var a: int := 18782;
    var m: int := 0xFFFF_FFFE;
    state.i := (state.i + 1) % CMWC_CYCLE;
    var t := (a * state.Q[state.i] + state.c) % 0x1_0000_0000_0000_0000;
    state.c := t / MOD;
    var x := (t + state.c) % MOD;
    if x < state.c {
      x := (x + 1) % MOD;
      state.c := (state.c + 1) % MOD;
    }
    r := (m - x) % MOD;
    state.Q[state.i] := r;
  }

  /**
   * initCMWC with rand32 returning draws[0], draws[1], ...: the ring takes
   * the first 4096 words, the carry is drawn again until it is below
   * CMWC_C_MAX (so some later draw must be), and the cursor is set to the
   * last word.  Returns how many draws were used.
   */
  method InitCmwc(state: CmwcState, draws: seq<u32>) returns (used: nat)
    requires state.Q.Length == CMWC_CYCLE
    requires exists k :: CMWC_CYCLE <= k < |draws| && draws[k] < CMWC_C_MAX
    modifies state, state.Q
    ensures state.Valid() && state.i == CMWC_CYCLE - 1 && state.c < CMWC_C_MAX
    ensures state.Q[..] == draws[..CMWC_CYCLE]
    ensures CMWC_CYCLE < used <= |draws| && state.c == draws[used - 1]
    ensures forall k :: CMWC_CYCLE <= k < used - 1 ==> draws[k] >= CMWC_C_MAX
  {
    for k := 0 to CMWC_CYCLE
      invariant state.Q[..k] == draws[..k]
    {
      state.Q[k] := draws[k];
    }
    used := CMWC_CYCLE;
    state.c := draws[used];
    used := used + 1;
    while state.c >= CMWC_C_MAX
      invariant CMWC_CYCLE < used <= |draws| && state.c == draws[used - 1]
      invariant forall k :: CMWC_CYCLE <= k < used - 1 ==> draws[k] >= CMWC_C_MAX
      invariant state.c >= CMWC_C_MAX ==> exists k :: used <= k < |draws| && draws[k] < CMWC_C_MAX
      invariant state.Q[..] == draws[..CMWC_CYCLE]
      decreases |draws| - used
    {
      state.c := draws[used];
      used := used + 1;
    }
    state.i := CMWC_CYCLE - 1;
  }
}
