/** The Q15 PID controller arm_pid_q15: an incremental controller whose state is
    the last two inputs and the last, truncated and saturated, output. */
module Pid {
  import opened Bits
  import opened FixedPoint
  import opened Simd

  datatype Gains = Gains(a0: q15, a1: q15, a2: q15)

  /** state[0], state[1], state[2]: x[n-1], x[n-2], y[n-1]. */
  datatype State = State(x1: q15, x2: q15, y: q15)

  const CLEARED := State(0, 0, 0)

  // ----- one step -----

  /** The 34.30 accumulator before truncation. */
  function Accumulator(g: Gains, s: State, x: q15): int {
    g.a0 * x + g.a1 * s.x1 + g.a2 * s.x2 + s.y * 0x8000
  }

  /** Truncation to 34.15 and saturation to 1.15. */
  function Output(acc: int): q15 {
    Wrap16(Ssat(Wrap32(acc / 0x8000), 16))
  }

  function Step(g: Gains, s: State, x: q15): State {
    State(x, s.x1, Output(Accumulator(g, s, x)))
  }

  /** The step saturates when the truncated accumulator leaves the q15 range. */
  predicate Saturates(g: Gains, s: State, x: q15) {
    !(-0x8000 <= Accumulator(g, s, x) / 0x8000 < 0x8000)
  }

  lemma AccumulatorRange(g: Gains, s: State, x: q15)
    ensures -0x1_0000_0000 <= Accumulator(g, s, x) <= 0x1_0000_0000
  {
    HalfProduct(g.a0, x);
    HalfProduct(g.a1, s.x1);
    HalfProduct(g.a2, s.x2);
  }

  lemma OutputIsClamp(acc: int)
    requires -0x2_0000_0000 <= acc <= 0x2_0000_0000
    ensures Output(acc) == Clamp15(acc / 0x8000)
  {
    var v := acc / 0x8000;
    assert Wrap32(v) == v;
    SsatIsClamp(v, 16);
    Pow2Values();
    hide Wrap16, Wrap32, Ssat, Pow2;
    assert Ssat(v, 16) == Clamp15(v);
  }

  /** The increment form: the output moves by the truncated correction, clamped. */
  lemma StepIncrement(g: Gains, s: State, x: q15)
    ensures Step(g, s, x).y == Clamp15(s.y + (g.a0 * x + g.a1 * s.x1 + g.a2 * s.x2) / 0x8000)
  {
    AccumulatorRange(g, s, x);
    OutputIsClamp(Accumulator(g, s, x));
    var d := g.a0 * x + g.a1 * s.x1 + g.a2 * s.x2;
    DivModUnique(Accumulator(g, s, x), 0x8000, s.y + d / 0x8000, d % 0x8000);
  }

  class Controller {
    var A0: q15
    var A1: q15
    var A2: q15
    const state: array<q15>

    ghost predicate Valid()
      reads this
    {
      state.Length == 3
    }

    ghost function GainsOf(): Gains
      reads this
    {
      Gains(A0, A1, A2)
    }

    ghost function StateOf(): State
      reads this, state
      requires Valid()
    {
      State(state[0], state[1], state[2])
    }

    constructor (a0: q15, a1: q15, a2: q15)
      ensures Valid() && fresh(state)
      ensures GainsOf() == Gains(a0, a1, a2) && StateOf() == CLEARED
    {
      A0, A1, A2 := a0, a1, a2;
      state := new q15[3](_ => 0);
    }

    /** arm_pid_q15, portable branch. */
    method Process(x: q15) returns (out: q15)
      requires Valid()
      modifies state
      ensures StateOf() == Step(GainsOf(), old(StateOf()), x)
      ensures out == StateOf().y
    {
      hide Wrap16, Wrap32, Ssat;
      var acc: int := Product31(A0, x);
      acc := acc + Product31(A1, state[0]);
      acc := acc + Product31(A2, state[1]);
      acc := acc + (state[2] as int) * 0x8000;
      out := Wrap16(Ssat(Wrap32(acc / 0x8000), 16));
      state[1] := state[0];
      state[0] := x;
      state[2] := out;
    }
  }

  // ----- whole runs -----

  /** The state after an input sequence, from the cleared state. */
  function Run(g: Gains, xs: seq<q15>): State {
    if xs == [] then CLEARED
    else Step(g, Run(g, xs[..|xs| - 1]), xs[|xs| - 1])
  }

  /** No step of the run saturates. */
  predicate NeverSaturates(g: Gains, xs: seq<q15>) {
    xs == [] || (var n := |xs| - 1;
                 NeverSaturates(g, xs[..n]) && !Saturates(g, Run(g, xs[..n]), xs[n]))
  }

  lemma RunInputs(g: Gains, xs: seq<q15>)
    ensures Run(g, xs).x1 == At(xs, 1)
    ensures Run(g, xs).x2 == At(xs, 2)
  {
    if |xs| >= 2 {
      var p := xs[..|xs| - 1];
      assert p[|p| - 1] == xs[|xs| - 2];
    }
  }

  /** x[n-k] counted from the end, zero before the start. */
  function At(xs: seq<q15>, k: nat): q15
    requires k >= 1
  {
    if k <= |xs| then xs[|xs| - k] else 0
  }

  function Sum(xs: seq<q15>): int {
    if xs == [] then 0 else Sum(xs[..|xs| - 1]) + xs[|xs| - 1]
  }

  /** The positional PID law the incremental form stands for, in 2.30 format:
      Kp * x[n] + Ki * (x[1] + ... + x[n]) + Kd * (x[n] - x[n-1]). */
  function Positional(kp: q15, ki: q15, kd: q15, xs: seq<q15>): int {
    kp * At(xs, 1) + ki * Sum(xs) + kd * (At(xs, 1) - At(xs, 2))
  }

  /** The gains that arm_pid_init_q15 documents, when they fit the format. */
  ghost predicate GainsFrom(g: Gains, kp: q15, ki: q15, kd: q15) {
    g.a0 == kp + ki + kd && g.a1 == -(kp as int) - 2 * kd && g.a2 == kd
  }

  /** The positional law moves by exactly one incremental correction. */
  lemma PositionalIncrement(g: Gains, kp: q15, ki: q15, kd: q15, xs: seq<q15>)
    requires xs != [] && GainsFrom(g, kp, ki, kd)
    ensures var p := xs[..|xs| - 1];
            Positional(kp, ki, kd, xs) - Positional(kp, ki, kd, p)
              == g.a0 * xs[|xs| - 1] + g.a1 * At(p, 1) + g.a2 * At(p, 2)
  {
    var p := xs[..|xs| - 1];
    assert At(xs, 2) == At(p, 1);
    TelescopeTerms(kp, ki, kd, xs[|xs| - 1], At(p, 1), At(p, 2), Sum(p));
  }

  lemma TelescopeTerms(kp: int, ki: int, kd: int, x: int, x1: int, x2: int, sum: int)
    ensures (kp * x + ki * (sum + x) + kd * (x - x1)) - (kp * x1 + ki * sum + kd * (x1 - x2))
         == (kp + ki + kd) * x + (-kp - 2 * kd) * x1 + kd * x2
  {
    assert (kp + ki + kd) * x == kp * x + ki * x + kd * x;
    assert (-kp - 2 * kd) * x1 == -(kp * x1) - 2 * (kd * x1);
    assert ki * (sum + x) == ki * sum + ki * x;
    assert kd * (x - x1) == kd * x - kd * x1;
    assert kd * (x1 - x2) == kd * x1 - kd * x2;
  }

  lemma PositionalEmpty(kp: q15, ki: q15, kd: q15)
    ensures Positional(kp, ki, kd, []) == 0
  {
    assert ki * Sum([]) == 0;
  }

  /** Over any input sequence without a saturating step the output tracks the
      positional law from below, losing less than one LSB per step. */
  lemma {:induction false} TracksPositional(g: Gains, kp: q15, ki: q15, kd: q15, xs: seq<q15>)
    requires GainsFrom(g, kp, ki, kd)
    requires NeverSaturates(g, xs)
    ensures Positional(kp, ki, kd, xs) - |xs| * 0x7FFF <= Run(g, xs).y * 0x8000
    ensures Run(g, xs).y * 0x8000 <= Positional(kp, ki, kd, xs)
  {
    if xs == [] {
      PositionalEmpty(kp, ki, kd);
    } else {
      var p, x := xs[..|xs| - 1], xs[|xs| - 1];
      TracksPositional(g, kp, ki, kd, p);
      PositionalIncrement(g, kp, ki, kd, xs);
      RunInputs(g, p);
      AccumulatorRange(g, Run(g, p), x);
      TruncationLoss(Accumulator(g, Run(g, p), x));
    }
  }

  lemma TruncationLoss(acc: int)
    requires -0x2_0000_0000 <= acc <= 0x2_0000_0000
    requires -0x8000 <= acc / 0x8000 < 0x8000
    ensures acc - 0x7FFF <= Output(acc) * 0x8000 <= acc
  {
    hide Output;
    OutputIsClamp(acc);
  }

  /** The ideal controller stays inside the output range, with room for the
      truncation: a condition on gains and inputs alone. */
  ghost predicate IdealInRange(kp: q15, ki: q15, kd: q15, xs: seq<q15>) {
    forall k :: 1 <= k <= |xs| ==>
      -0x4000_0000 + (k - 1) * 0x7FFF <= Positional(kp, ki, kd, xs[..k]) < 0x4000_0000
  }

  /** If the positional law stays in range, no step of the fixed-point controller
      saturates, so the tracking bound holds for the whole run. */
  lemma {:induction false} IdealInRangeNeverSaturates(g: Gains, kp: q15, ki: q15, kd: q15, xs: seq<q15>)
    requires GainsFrom(g, kp, ki, kd)
    requires IdealInRange(kp, ki, kd, xs)
    ensures NeverSaturates(g, xs)
    ensures Positional(kp, ki, kd, xs) - |xs| * 0x7FFF <= Run(g, xs).y * 0x8000 <= Positional(kp, ki, kd, xs)
  {
    if xs != [] {
      var p, x := xs[..|xs| - 1], xs[|xs| - 1];
      forall k | 1 <= k <= |p|
        ensures -0x4000_0000 + (k - 1) * 0x7FFF <= Positional(kp, ki, kd, p[..k]) < 0x4000_0000
      {
        assert p[..k] == xs[..k];
      }
      IdealInRangeNeverSaturates(g, kp, ki, kd, p);
      assert xs[..|xs|] == xs;
      PositionalIncrement(g, kp, ki, kd, xs);
      RunInputs(g, p);
      InRangeShift(Accumulator(g, Run(g, p), x));
    }
    TracksPositional(g, kp, ki, kd, xs);
  }

  lemma InRangeShift(acc: int)
    ensures -0x8000 <= acc / 0x8000 < 0x8000 <==> -0x4000_0000 <= acc < 0x4000_0000
  {
  }

  // ----- the DSP branch -----

  /** The accumulator of the ARM_MATH_DSP branch: A0 and in enter SMUAD as
      sign-extended words, A1 holds the pair A1 | A2. */
  function DspAccumulator(g: Gains, s: State, x: q15): int {
    var first := Wrap32(Smuad(Unsigned32(g.a0), Unsigned32(x)));
    Wrap64(Smlald(Pack(g.a1, g.a2), Pack(s.x1, s.x2), first % 0x1_0000_0000_0000_0000)) + s.y * 0x8000
  }

  function DspStep(g: Gains, s: State, x: q15): State {
    State(x, s.x1, Output(DspAccumulator(g, s, x)))
  }

  /** 1 when the sign halves of A0 and in multiply to 1. */
  function SignProduct(g: Gains, x: q15): int {
    if g.a0 < 0 && x < 0 then 1 else 0
  }

  /** The DSP accumulator exceeds the portable one by exactly the product of the
      two sign halves, except when the second dual product overflows. */
  lemma DspAccumulatorOffset(g: Gains, s: State, x: q15)
    ensures DspAccumulator(g, s, x) == Accumulator(g, s, x) + SignProduct(g, x)
       <==> !(g.a1 == g.a2 == s.x1 == s.x2 == -0x8000)
    ensures g.a1 == g.a2 == s.x1 == s.x2 == -0x8000 ==>
      DspAccumulator(g, s, x) == Accumulator(g, s, x) + SignProduct(g, x) - 0x1_0000_0000
  {
    hide Low, High, Smuad, Smlald, Wrap32, Wrap64, Pack, Unsigned32;
    SmuadFirst(g, x);
    var first := g.a0 * x + SignProduct(g, x);
    HalfProduct(g.a0, x);
    PackHalves(g.a1, g.a2);
    PackHalves(s.x1, s.x2);
    SmlaldSigned(Pack(g.a1, g.a2), Pack(s.x1, s.x2), first);
  }

  lemma SmuadFirst(g: Gains, x: q15)
    ensures Wrap32(Smuad(Unsigned32(g.a0), Unsigned32(x))) == g.a0 * x + SignProduct(g, x)
  {
    hide Low, High, Wrap32;
    SignExtended(g.a0);
    SignExtended(x);
    HalfProduct(g.a0, x);
    SignedBack(g.a0 * x + SignProduct(g, x));
  }

  /** From the same state the two branches differ by at most one LSB. */
  lemma DspStepClose(g: Gains, s: State, x: q15)
    requires !(g.a1 == g.a2 == s.x1 == s.x2 == -0x8000)
    ensures 0 <= DspStep(g, s, x).y - Step(g, s, x).y <= SignProduct(g, x)
  {
    hide DspAccumulator, Accumulator, Output;
    var acc := Accumulator(g, s, x);
    DspAccumulatorOffset(g, s, x);
    AccumulatorRange(g, s, x);
    OutputIsClamp(acc);
    OutputIsClamp(acc + SignProduct(g, x));
  }

  function DspRun(g: Gains, xs: seq<q15>): State {
    if xs == [] then CLEARED
    else DspStep(g, DspRun(g, xs[..|xs| - 1]), xs[|xs| - 1])
  }

  predicate DspNeverSaturates(g: Gains, xs: seq<q15>) {
    xs == [] || (var n := |xs| - 1;
                 DspNeverSaturates(g, xs[..n])
                 && -0x8000 <= DspAccumulator(g, DspRun(g, xs[..n]), xs[n]) / 0x8000 < 0x8000)
  }

  lemma DspRunInputs(g: Gains, xs: seq<q15>)
    ensures DspRun(g, xs).x1 == At(xs, 1)
    ensures DspRun(g, xs).x2 == At(xs, 2)
  {
    if |xs| >= 2 {
      var p := xs[..|xs| - 1];
      assert p[|p| - 1] == xs[|xs| - 2];
    }
  }

  /** Gains derived from q15 Kp, Ki, Kd never reach the overflowing corner. */
  lemma PidGainsAvoidCorner(g: Gains, kp: q15, ki: q15, kd: q15)
    requires GainsFrom(g, kp, ki, kd)
    ensures !(g.a1 == g.a2 == -0x8000)
  {
  }

  /** The DSP branch tracks the positional law too; the sign products can lift it
      by one accumulator unit (2^-15 LSB) per step. */
  lemma {:induction false} DspTracksPositional(g: Gains, kp: q15, ki: q15, kd: q15, xs: seq<q15>)
    requires GainsFrom(g, kp, ki, kd)
    requires DspNeverSaturates(g, xs)
    ensures Positional(kp, ki, kd, xs) - |xs| * 0x7FFF <= DspRun(g, xs).y * 0x8000
    ensures DspRun(g, xs).y * 0x8000 <= Positional(kp, ki, kd, xs) + |xs|
  {
    if xs == [] {
      PositionalEmpty(kp, ki, kd);
    } else {
      hide DspStep, DspAccumulator, Positional;
      var p, x := xs[..|xs| - 1], xs[|xs| - 1];
      DspTracksPositional(g, kp, ki, kd, p);
      PositionalIncrement(g, kp, ki, kd, xs);
      DspRunInputs(g, p);
      PidGainsAvoidCorner(g, kp, ki, kd);
      DspStepLoss(g, DspRun(g, p), x);
    }
  }

  lemma DspStepLoss(g: Gains, s: State, x: q15)
    requires !(g.a1 == g.a2 == -0x8000)
    requires -0x8000 <= DspAccumulator(g, s, x) / 0x8000 < 0x8000
    ensures Accumulator(g, s, x) - 0x7FFF <= DspStep(g, s, x).y * 0x8000 <= Accumulator(g, s, x) + 1
  {
    hide DspAccumulator, Accumulator, Output;
    DspAccumulatorOffset(g, s, x);
    AccumulatorRange(g, s, x);
    TruncationLoss(DspAccumulator(g, s, x));
  }

  // ----- the two builds over whole runs -----

  /** The increment form of the DSP step. */
  lemma DspStepIncrement(g: Gains, s: State, x: q15)
    requires !(g.a1 == g.a2 == s.x1 == s.x2 == -0x8000)
    ensures DspStep(g, s, x).y
         == Clamp15(s.y + (g.a0 * x + g.a1 * s.x1 + g.a2 * s.x2 + SignProduct(g, x)) / 0x8000)
  {
    hide DspAccumulator, Output;
    AccumulatorRange(g, s, x);
    DspAccumulatorOffset(g, s, x);
    var d := g.a0 * x + g.a1 * s.x1 + g.a2 * s.x2 + SignProduct(g, x);
    OutputIsClamp(s.y * 0x8000 + d);
    DivModUnique(s.y * 0x8000 + d, 0x8000, s.y + d / 0x8000, d % 0x8000);
  }

  /** How many steps have a sign product of 1. */
  function Lifts(g: Gains, xs: seq<q15>): nat {
    if xs == [] then 0 else Lifts(g, xs[..|xs| - 1]) + SignProduct(g, xs[|xs| - 1])
  }

  /** No step meets the overflow of the second dual product. */
  predicate CornerFree(g: Gains, xs: seq<q15>) {
    g.a1 == g.a2 == -0x8000 ==> forall k :: 0 <= k < |xs| - 2 ==> !(xs[k] == xs[k + 1] == -0x8000)
  }

  /** On every run that stays clear of that corner, saturating or not, the DSP build
      is never below the portable one, and above it by at most one unit for each
      step with a negative gain A0 and a negative input. */
  lemma {:induction false} BuildsStayClose(g: Gains, xs: seq<q15>)
    requires CornerFree(g, xs)
    ensures 0 <= DspRun(g, xs).y - Run(g, xs).y <= Lifts(g, xs)
    ensures g.a0 >= 0 ==> DspRun(g, xs).y == Run(g, xs).y
    decreases |xs|
  {
    if xs != [] {
      hide Step, DspStep, CornerFree;
      var p, x := xs[..|xs| - 1], xs[|xs| - 1];
      CornerFreePrefix(g, xs);
      BuildsStayClose(g, p);
      RunInputs(g, p);
      DspRunInputs(g, p);
      BuildsStep(g, Run(g, p), DspRun(g, p), x);
    }
  }

  /** One step from states that differ in the last output only. */
  lemma BuildsStep(g: Gains, s: State, s': State, x: q15)
    requires s.x1 == s'.x1 && s.x2 == s'.x2 && s.y <= s'.y
    requires !(g.a1 == g.a2 == s.x1 == s.x2 == -0x8000)
    ensures 0 <= DspStep(g, s', x).y - Step(g, s, x).y <= s'.y - s.y + SignProduct(g, x)
  {
    hide Step, DspStep, Clamp;
    StepIncrement(g, s, x);
    DspStepIncrement(g, s', x);
    LiftedClamp(s.y, s'.y, g.a0 * x + g.a1 * s.x1 + g.a2 * s.x2, SignProduct(g, x));
  }

  lemma CornerFreePrefix(g: Gains, xs: seq<q15>)
    requires xs != [] && CornerFree(g, xs)
    ensures var p := xs[..|xs| - 1];
            CornerFree(g, p) && !(g.a1 == g.a2 == At(p, 1) == At(p, 2) == -0x8000)
  {
    if g.a1 == g.a2 == -0x8000 && |xs| >= 3 {
      assert !(xs[|xs| - 3] == xs[|xs| - 3 + 1] == -0x8000);
    }
  }

  /** Truncation and saturation are monotone and move no two values further apart. */
  lemma LiftedClamp(y: int, y': int, d: int, lift: int)
    requires y <= y' && 0 <= lift <= 1
    ensures 0 <= Clamp15(y' + (d + lift) / 0x8000) - Clamp15(y + d / 0x8000) <= y' - y + lift
  {
  }

  /** The two builds keep that bound at every step exactly when no step meets the
      corner: there the DSP output is negative and the portable one is not. */
  lemma BuildsStayCloseExactly(g: Gains, xs: seq<q15>)
    ensures (forall k :: 0 <= k <= |xs| ==> 0 <= DspRun(g, xs[..k]).y - Run(g, xs[..k]).y <= Lifts(g, xs[..k]))
       <==> CornerFree(g, xs)
  {
    hide Run, DspRun, Lifts;
    if CornerFree(g, xs) {
      forall k | 0 <= k <= |xs|
        ensures 0 <= DspRun(g, xs[..k]).y - Run(g, xs[..k]).y <= Lifts(g, xs[..k])
      {
        assert CornerFree(g, xs[..k]);
        BuildsStayClose(g, xs[..k]);
      }
    } else {
      var k :| 0 <= k < |xs| - 2 && xs[k] == xs[k + 1] == -0x8000;
      BuildsPart(g, xs[..k + 3]);
    }
  }

  lemma BuildsPart(g: Gains, xs: seq<q15>)
    requires |xs| >= 3 && g.a1 == g.a2 == xs[|xs| - 2] == xs[|xs| - 3] == -0x8000
    ensures DspRun(g, xs).y < 0 <= Run(g, xs).y
  {
    hide Step, DspStep;
    var p, x := xs[..|xs| - 1], xs[|xs| - 1];
    RunInputs(g, p);
    DspRunInputs(g, p);
    StepIncrement(g, Run(g, p), x);
    HalfProduct(g.a0, x);
    CornerOutput(g, DspRun(g, p), x);
  }

  lemma CornerOutput(g: Gains, s: State, x: q15)
    requires g.a1 == g.a2 == s.x1 == s.x2 == -0x8000
    ensures DspStep(g, s, x).y < 0
  {
    hide DspAccumulator, Output;
    HalfProduct(g.a0, x);
    DspAccumulatorOffset(g, s, x);
    OutputIsClamp(DspAccumulator(g, s, x));
  }

  // ----- Q31 -----

  /** arm_pid_q31: the 2.62 sum is formed modulo 2^64, shifted, narrowed, and added
      to the last output in 32 bits. */
  function Pid31Output(a0: q31, a1: q31, a2: q31, x: q31, x1: q31, x2: q31, y: q31): q31 {
    var acc := Product63(a0, x);
    var acc := Wrap64(acc + Product63(a1, x1));
    var acc := Wrap64(acc + Product63(a2, x2));
    Wrap32(Wrap32(acc / 0x8000_0000) + y)
  }

  /** The two 64-bit reductions are one. */
  lemma Pid31Value(a0: q31, a1: q31, a2: q31, x: q31, x1: q31, x2: q31, y: q31)
    ensures Pid31Output(a0, a1, a2, x, x1, x2, y)
         == Wrap32(Wrap64(a0 * x + a1 * x1 + a2 * x2) / 0x8000_0000 + y)
  {
    hide Wrap64, Wrap32;
    Pid31Unfolded(a0, a1, a2, x, x1, x2, y);
    hide Pid31Output;
    CollapseAll(a0 * x + a1 * x1, a2 * x2, y);
  }

  lemma Pid31Unfolded(a0: q31, a1: q31, a2: q31, x: q31, x1: q31, x2: q31, y: q31)
    ensures Pid31Output(a0, a1, a2, x, x1, x2, y)
         == Wrap32(Wrap32(Wrap64(Wrap64(a0 * x + a1 * x1) + a2 * x2) / 0x8000_0000) + y)
  {
    hide Wrap64, Wrap32;
  }

  lemma CollapseAll(s: int, r: int, y: int)
    ensures Wrap32(Wrap32(Wrap64(Wrap64(s) + r) / 0x8000_0000) + y) == Wrap32(Wrap64(s + r) / 0x8000_0000 + y)
  {
    hide Wrap64, Wrap32;
    Wrap64Sum(s, r);
    NarrowSum(Wrap64(s + r) / 0x8000_0000, y);
  }

  /** All the wrapping together is one reduction modulo 2^32 of the exact value, so
      the result is the exact one saturated to 1.31 exactly when that value fits, or
      agrees with a bound modulo 2^32. */
  lemma Pid31Exactly(a0: q31, a1: q31, a2: q31, x: q31, x1: q31, x2: q31, y: q31)
    ensures var exact := (a0 * x + a1 * x1 + a2 * x2) / 0x8000_0000 + y;
            Pid31Output(a0, a1, a2, x, x1, x2, y) == Wrap32(exact)
            && (Pid31Output(a0, a1, a2, x, x1, x2, y) == Clamp31(exact)
                <==> -0x8000_0000 <= exact < 0x8000_0000
                     || (exact > 0 && exact % 0x1_0000_0000 == 0x7FFF_FFFF)
                     || (exact < 0 && exact % 0x1_0000_0000 == 0x8000_0000))
  {
    hide Pid31Output, Wrap64, Wrap32;
    Pid31Value(a0, a1, a2, x, x1, x2, y);
    ShiftWrapped(a0 * x + a1 * x1 + a2 * x2, y);
    WrapMeetsClamp((a0 * x + a1 * x1 + a2 * x2) / 0x8000_0000 + y);
  }

  /** The documentation lets the 64-bit accumulator wrap and promises a result
      saturated to 1.31 after it. The final addition wraps as well, so the promise
      is kept exactly when the value fits, and in the one case where the lowest
      accumulator meets the lowest last output. */
  lemma Pid31Documented(a0: q31, a1: q31, a2: q31, x: q31, x1: q31, x2: q31, y: q31)
    ensures var acc := Wrap64(a0 * x + a1 * x1 + a2 * x2);
            var documented := acc / 0x8000_0000 + y;
            (Pid31Output(a0, a1, a2, x, x1, x2, y) == Clamp31(documented)
             <==> -0x8000_0000 <= documented < 0x8000_0000 || documented == -0x1_8000_0000)
  {
    hide Pid31Output, Wrap64, Wrap32;
    Pid31Value(a0, a1, a2, x, x1, x2, y);
    var acc := Wrap64(a0 * x + a1 * x1 + a2 * x2);
    WrapMeetsClamp(acc / 0x8000_0000 + y);
    ThreeHalves(acc / 0x8000_0000, y);
  }

  /** The only values of that range which meet a bound modulo 2^32. */
  lemma ThreeHalves(v: int, y: q31)
    requires -0x1_0000_0000 <= v < 0x1_0000_0000
    ensures v + y > 0 && (v + y) % 0x1_0000_0000 == 0x7FFF_FFFF ==> v + y == 0x7FFF_FFFF
    ensures v + y < 0 && (v + y) % 0x1_0000_0000 == 0x8000_0000 ==> v + y == -0x8000_0000 || v + y == -0x1_8000_0000
    ensures (-0x1_8000_0000) % 0x1_0000_0000 == 0x8000_0000
  {
  }

  lemma ShiftWrapped(v: int, y: int)
    ensures Wrap32(Wrap64(v) / 0x8000_0000 + y) == Wrap32(v / 0x8000_0000 + y)
  {
    hide Wrap64, Wrap32;
    WrapQuotient(v);
    var k := (v + 0x8000_0000_0000_0000) / 0x1_0000_0000_0000_0000;
    ShiftCollapsed(v, Wrap64(v), k);
    SameResidue(v / 0x8000_0000 + y, k);
  }

  lemma Wrap64Sum(s: int, r: int)
    ensures Wrap64(Wrap64(s) + r) == Wrap64(s + r)
  {
    hide Wrap64;
    WrapQuotient(s);
    ResidueShift64(s + r, (s + 0x8000_0000_0000_0000) / 0x1_0000_0000_0000_0000);
  }

  lemma ResidueShift64(v: int, i: int)
    ensures Wrap64(v - i * 0x1_0000_0000_0000_0000) == Wrap64(v)
  {
    var k := (v + 0x8000_0000_0000_0000) / 0x1_0000_0000_0000_0000;
    WrapAt(v, 0x8000_0000_0000_0000, k);
    WrapAt(v - i * 0x1_0000_0000_0000_0000, 0x8000_0000_0000_0000, k - i);
  }

  lemma WrapQuotient(s: int)
    ensures Wrap64(s) == s - ((s + 0x8000_0000_0000_0000) / 0x1_0000_0000_0000_0000) * 0x1_0000_0000_0000_0000
  {
    Wrap64Modulo(s);
  }

  lemma ShiftCollapsed(v: int, t: int, k: int)
    requires t == v - k * 0x1_0000_0000_0000_0000
    ensures t / 0x8000_0000 == v / 0x8000_0000 - k * 0x2_0000_0000
  {
    DivModUnique(t, 0x8000_0000, v / 0x8000_0000 - k * 0x2_0000_0000, v % 0x8000_0000);
  }

  lemma NarrowSum(v: int, y: int)
    ensures Wrap32(Wrap32(v) + y) == Wrap32(v + y)
  {
    WrapModulo(v);
    hide Wrap32;
    ResidueShift(v + y, (v + 0x8000_0000) / 0x1_0000_0000);
  }

  /** Multiples of 2^32 do not matter to the narrowing. */
  lemma ResidueShift(v: int, i: int)
    ensures Wrap32(v - i * 0x1_0000_0000) == Wrap32(v)
  {
    var k := (v + 0x8000_0000) / 0x1_0000_0000;
    WrapAt(v, 0x8000_0000, k);
    WrapAt(v - i * 0x1_0000_0000, 0x8000_0000, k - i);
  }

  lemma SameResidue(exact: int, k: int)
    ensures Wrap32(exact - k * 0x2_0000_0000) == Wrap32(exact)
  {
    ResidueShift(exact, 2 * k);
  }

  lemma WrapMeetsClamp(v: int)
    ensures Wrap32(v) == Clamp31(v)
       <==> -0x8000_0000 <= v < 0x8000_0000
            || (v > 0 && v % 0x1_0000_0000 == 0x7FFF_FFFF)
            || (v < 0 && v % 0x1_0000_0000 == 0x8000_0000)
  {
    var h, l := v / 0x1_0000_0000, v % 0x1_0000_0000;
    WrapAt(v, 0x8000_0000, if l < 0x8000_0000 then h else h + 1);
  }
}
