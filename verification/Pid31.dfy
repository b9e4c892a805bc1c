/** The Q31 PID controller arm_pid_q31: an incremental controller like the Q15 one, but
    every sum it forms wraps, at 64 bits in the accumulator and at 32 in the output. */
module Pid31 {
  import opened Bits
  import opened FixedPoint
  import opened Pid

  datatype Gains31 = Gains31(a0: q31, a1: q31, a2: q31)

  /** state[0], state[1], state[2]: x[n-1], x[n-2], y[n-1]. */
  datatype State31 = State31(x1: q31, x2: q31, y: q31)

  const CLEARED31 := State31(0, 0, 0)

  function Step31(g: Gains31, s: State31, x: q31): State31 {
    State31(x, s.x1, Pid31Output(g.a0, g.a1, g.a2, x, s.x1, s.x2, s.y))
  }

  class Controller31 {
    var A0: q31
    var A1: q31
    var A2: q31
    const state: array<q31>

    ghost predicate Valid()
      reads this
    {
      state.Length == 3
    }

    ghost function GainsOf(): Gains31
      reads this
    {
      Gains31(A0, A1, A2)
    }

    ghost function StateOf(): State31
      reads this, state
      requires Valid()
    {
      State31(state[0], state[1], state[2])
    }

    constructor (a0: q31, a1: q31, a2: q31)
      ensures Valid() && fresh(state)
      ensures GainsOf() == Gains31(a0, a1, a2) && StateOf() == CLEARED31
    {
      A0, A1, A2 := a0, a1, a2;
      state := new q31[3](_ => 0);
    }

    /** arm_pid_q31 */
    method Process(x: q31) returns (out: q31)
      requires Valid()
      modifies state
      ensures StateOf() == Step31(GainsOf(), old(StateOf()), x)
      ensures out == StateOf().y
    {
      hide Wrap64, Wrap32;
      var acc: q63 := Product63(A0, x);
      acc := Wrap64(acc + Product63(A1, state[0]));
      acc := Wrap64(acc + Product63(A2, state[1]));
      out := Wrap32(acc / 0x8000_0000);
      out := Wrap32(out + state[2]);
      state[1] := state[0];
      state[0] := x;
      state[2] := out;
    }
  }

  // ----- whole runs -----

  /** The state after an input sequence, from the cleared state. */
  function Run31(g: Gains31, xs: seq<q31>): State31 {
    if xs == [] then CLEARED31
    else Step31(g, Run31(g, xs[..|xs| - 1]), xs[|xs| - 1])
  }

  /** x[n-k] counted from the end, zero before the start. */
  function At31(xs: seq<q31>, k: nat): q31
    requires k >= 1
  {
    if k <= |xs| then xs[|xs| - k] else 0
  }

  lemma Run31Inputs(g: Gains31, xs: seq<q31>)
    ensures Run31(g, xs).x1 == At31(xs, 1)
    ensures Run31(g, xs).x2 == At31(xs, 2)
  {
    if |xs| >= 2 {
      var p := xs[..|xs| - 1];
      assert p[|p| - 1] == xs[|xs| - 2];
    }
  }

  /** The truncated correction of the last step, on unbounded integers. */
  function Correction(g: Gains31, xs: seq<q31>): int
    requires xs != []
  {
    (g.a0 * At31(xs, 1) + g.a1 * At31(xs, 2) + g.a2 * At31(xs, 3)) / 0x8000_0000
  }

  /** All the corrections so far. */
  function Corrections(g: Gains31, xs: seq<q31>): int {
    if xs == [] then 0 else Corrections(g, xs[..|xs| - 1]) + Correction(g, xs)
  }

  /** However often the accumulator and the output wrapped on the way, the output is
      the sum of the truncated corrections, reduced once. */
  lemma {:induction false} RunCollapses(g: Gains31, xs: seq<q31>)
    ensures Run31(g, xs).y == Wrap32(Corrections(g, xs))
    decreases |xs|
  {
    if xs != [] {
      hide Wrap32, Correction, Pid31Output;
      var p := xs[..|xs| - 1];
      RunCollapses(g, p);
      Run31Inputs(g, p);
      StepCollapses(g, p, xs[|xs| - 1]);
      assert p + [xs[|xs| - 1]] == xs;
      NarrowSum(Corrections(g, p), Correction(g, xs));
    }
  }

  lemma StepCollapses(g: Gains31, p: seq<q31>, x: q31)
    ensures Pid31Output(g.a0, g.a1, g.a2, x, At31(p, 1), At31(p, 2), Run31(g, p).y)
         == Wrap32(Run31(g, p).y + Correction(g, p + [x]))
  {
    hide Wrap32, Pid31Output, Run31;
    var xs := p + [x];
    assert At31(xs, 1) == x && At31(xs, 2) == At31(p, 1) && At31(xs, 3) == At31(p, 2);
    Pid31Exactly(g.a0, g.a1, g.a2, x, At31(p, 1), At31(p, 2), Run31(g, p).y);
  }

  function Sum31(xs: seq<q31>): int {
    if xs == [] then 0 else Sum31(xs[..|xs| - 1]) + xs[|xs| - 1]
  }

  /** The positional law in 2.62 format. */
  function Positional31(kp: q31, ki: q31, kd: q31, xs: seq<q31>): int {
    kp * At31(xs, 1) + ki * Sum31(xs) + kd * (At31(xs, 1) - At31(xs, 2))
  }

  ghost predicate GainsFrom31(g: Gains31, kp: q31, ki: q31, kd: q31) {
    g.a0 == kp + ki + kd && g.a1 == -(kp as int) - 2 * kd && g.a2 == kd
  }

  lemma PositionalStep(g: Gains31, kp: q31, ki: q31, kd: q31, xs: seq<q31>)
    requires xs != [] && GainsFrom31(g, kp, ki, kd)
    ensures Positional31(kp, ki, kd, xs) - Positional31(kp, ki, kd, xs[..|xs| - 1])
         == g.a0 * At31(xs, 1) + g.a1 * At31(xs, 2) + g.a2 * At31(xs, 3)
  {
    var p := xs[..|xs| - 1];
    assert At31(xs, 2) == At31(p, 1) && At31(xs, 3) == At31(p, 2);
    TelescopeTerms(kp, ki, kd, xs[|xs| - 1], At31(p, 1), At31(p, 2), Sum31(p));
  }

  /** The corrections lose less than one unit per step against the positional law. */
  lemma {:induction false} CorrectionsTrack(g: Gains31, kp: q31, ki: q31, kd: q31, xs: seq<q31>)
    requires GainsFrom31(g, kp, ki, kd)
    ensures Positional31(kp, ki, kd, xs) - |xs| * 0x7FFF_FFFF <= Corrections(g, xs) * 0x8000_0000
    ensures Corrections(g, xs) * 0x8000_0000 <= Positional31(kp, ki, kd, xs)
    decreases |xs|
  {
    if xs == [] {
      assert ki * Sum31([]) == 0;
    } else {
      hide Positional31, GainsFrom31, At31;
      CorrectionsTrack(g, kp, ki, kd, xs[..|xs| - 1]);
      PositionalStep(g, kp, ki, kd, xs);
      FloorLoss(g.a0 * At31(xs, 1) + g.a1 * At31(xs, 2) + g.a2 * At31(xs, 3));
    }
  }

  lemma FloorLoss(d: int)
    ensures d - 0x7FFF_FFFF <= d / 0x8000_0000 * 0x8000_0000 <= d
  {
  }

  /** If the positional law is in range at the end of a run, with room for the
      truncation, the output tracks it there, no matter how often the controller
      overflowed before. */
  lemma EndInRangeTracks(g: Gains31, kp: q31, ki: q31, kd: q31, xs: seq<q31>)
    requires GainsFrom31(g, kp, ki, kd)
    requires -0x4000_0000_0000_0000 + |xs| * 0x7FFF_FFFF <= Positional31(kp, ki, kd, xs) < 0x4000_0000_0000_0000
    ensures Positional31(kp, ki, kd, xs) - |xs| * 0x7FFF_FFFF <= Run31(g, xs).y * 0x8000_0000
    ensures Run31(g, xs).y * 0x8000_0000 <= Positional31(kp, ki, kd, xs)
  {
    hide Positional31, GainsFrom31, Run31, Corrections, Wrap32;
    RunCollapses(g, xs);
    CorrectionsTrack(g, kp, ki, kd, xs);
    assert -0x8000_0000 <= Corrections(g, xs) < 0x8000_0000;
  }
}
