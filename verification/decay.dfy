/**
 * The exponential decay sequence behind every envelope: a resumable
 * generator that starts at an amplitude and, each time it is resumed with a
 * timestamp, multiplies its value by 0.5^(elapsed / halfLife), until the value
 * is at or below a fixed threshold, when it finishes with the value 0.
 *
 * The host's `Math.pow(0.5, x)` is not reproduced: every member takes it as a
 * parameter `pow` of which only the properties in `IsHalfPower` are known.
 */
module Decay {
  import opened Options

  /** The threshold hard-wired into the generator (`localEpsilon`). */
  const LocalEpsilon: real := 0.001

  /**
   * What the model knows of x ↦ 0.5^x on non-negative exponents: it is 1 at 0,
   * lies in [0, 1] (0 once it underflows) and does not increase.
   */
  ghost predicate IsHalfPower(pow: real -> real) {
    && pow(0.0) == 1.0
    && (forall x :: 0.0 <= x ==> 0.0 <= pow(x) <= 1.0)
    && (forall x, y :: 0.0 <= x <= y ==> pow(y) <= pow(x))
  }

  /**
   * Where a generator's body stands: not yet entered, suspended at its `yield`,
   * or returned.
   */
  datatype Phase = Created | Suspended | Finished

  /**
   * The object one call of `next` returns. `value` is absent (`undefined`)
   * when the generator had already returned before the call.
   */
  datatype IterResult = IterResult(value: Option<real>, done: bool)

  /**
   * The locals of one generator: its fixed half-life, the current `value`, the
   * time of the last sample `lastMs`, and its phase.
   */
  datatype DecayState = DecayState(halfLifeMs: real, value: real, lastMs: real, phase: Phase)

  /** A generator as created, before its body has run. */
  function Start(halfLifeMs: real, startValue: real, startMs: real): DecayState {
    DecayState(halfLifeMs, startValue, startMs, Created)
  }

  /**
   * The states a generator reaches: a positive half-life, and a generator
   * suspended at its `yield` holds a value above the threshold.
   */
  ghost predicate WellFormed(s: DecayState) {
    s.halfLifeMs > 0.0 && (s.phase == Suspended ==> s.value > LocalEpsilon)
  }

  /** Elapsed time since the last sample, clamped at zero for a clock that runs backwards. */
  function Elapsed(nowMs: real, lastMs: real): (d: real)
    ensures d >= 0.0
    ensures nowMs <= lastMs ==> d == 0.0
    ensures lastMs <= nowMs ==> d == nowMs - lastMs
  {
    if nowMs - lastMs > 0.0 then nowMs - lastMs else 0.0
  }

  /**
   * `Math.pow(0.5, deltaMs / halfLifeMs)`: the factor by which the value
   * shrinks over `deltaMs`. It lies in [0, 1], is 1 for no elapsed time and
   * shrinks as more time elapses.
   */
  function DecayFactor(deltaMs: real, halfLifeMs: real, pow: real -> real): (f: real)
    requires halfLifeMs > 0.0
    ensures IsHalfPower(pow) && deltaMs >= 0.0 ==> 0.0 <= f <= 1.0
    ensures IsHalfPower(pow) && deltaMs == 0.0 ==> f == 1.0
  {
    pow(deltaMs / halfLifeMs)
  }

  /** More elapsed time never gives a larger factor. */
  lemma DecayFactorMonotone(deltaMs: real, laterMs: real, halfLifeMs: real, pow: real -> real)
    requires IsHalfPower(pow) && halfLifeMs > 0.0 && 0.0 <= deltaMs <= laterMs
    ensures DecayFactor(laterMs, halfLifeMs, pow) <= DecayFactor(deltaMs, halfLifeMs, pow)
  {
    QuotientMonotone(deltaMs, laterMs, halfLifeMs);
  }

  /**
   * Of two resumptions of the same suspended generator, the one with the
   * later timestamp never leaves a larger value.
   */
  lemma LaterResumeNeverLarger(s: DecayState, earlierMs: real, laterMs: real, pow: real -> real)
    requires IsHalfPower(pow) && WellFormed(s) && s.phase == Suspended
    requires earlierMs <= laterMs
    ensures Step(s, laterMs, pow).0.value <= Step(s, earlierMs, pow).0.value
  {
    ResumeAntitone(s, earlierMs, laterMs, pow);
    assert Step(s, laterMs, pow).0.value == Resume(s, laterMs, pow).value;
    assert Step(s, earlierMs, pow).0.value == Resume(s, earlierMs, pow).value;
  }

  lemma ResumeAntitone(s: DecayState, earlierMs: real, laterMs: real, pow: real -> real)
    requires IsHalfPower(pow) && s.halfLifeMs > 0.0 && s.value >= 0.0 && earlierMs <= laterMs
    ensures Resume(s, laterMs, pow).value <= Resume(s, earlierMs, pow).value
  {
    var early := DecayFactor(Elapsed(earlierMs, s.lastMs), s.halfLifeMs, pow);
    var late := DecayFactor(Elapsed(laterMs, s.lastMs), s.halfLifeMs, pow);
    DecayFactorMonotone(Elapsed(earlierMs, s.lastMs), Elapsed(laterMs, s.lastMs), s.halfLifeMs, pow);
    ScaleMonotone(s.value, late, early);
  }

  lemma ScaleMonotone(v: real, f: real, g: real)
    requires v >= 0.0 && f <= g
    ensures v * f <= v * g
  {
  }

  lemma QuotientMonotone(a: real, b: real, h: real)
    requires 0.0 <= a <= b && h > 0.0
    ensures 0.0 <= a / h <= b / h
  {
  }

  /** The body of one loop iteration after resuming: decay by the elapsed time and remember the timestamp. */
  function Resume(s: DecayState, nowMs: real, pow: real -> real): DecayState
    requires s.halfLifeMs > 0.0
  {
    var deltaMs := Elapsed(nowMs, s.lastMs);
    s.(value := s.value * DecayFactor(deltaMs, s.halfLifeMs, pow), lastMs := nowMs)
  }

  /** The loop test of the generator body: yield the value while it is above the threshold, else return 0. */
  function Continue(s: DecayState): (DecayState, IterResult) {
    if s.value > LocalEpsilon then (s.(phase := Suspended), IterResult(Some(s.value), false))
    else (s.(phase := Finished), IterResult(Some(0.0), true))
  }

  /**
   * One call of `next(nowMs)`. A created generator ignores its input and runs
   * to the first `yield`; a suspended one decays its value by the elapsed time
   * and tests the loop condition again; a returned one only reports `done`.
   */
  function Step(s: DecayState, nowMs: real, pow: real -> real): (out: (DecayState, IterResult))
    requires s.halfLifeMs > 0.0
    ensures out.0.halfLifeMs == s.halfLifeMs
    ensures out.1.done <==> out.0.phase == Finished
    ensures !out.1.done ==> out.1.value == Some(out.0.value) && out.0.value > LocalEpsilon
    ensures out.1.done && s.phase != Finished ==> out.1.value == Some(0.0) && out.0.value <= LocalEpsilon
    ensures s.phase == Finished ==> out == (s, IterResult(None, true))
    ensures WellFormed(s) ==> WellFormed(out.0)
  {
    match s.phase
    case Created => Continue(s)
    case Suspended => Continue(Resume(s, nowMs, pow))
    case Finished => (s, IterResult(None, true))
  }

  /** A step never raises the generator's value. */
  lemma StepNeverIncreases(s: DecayState, nowMs: real, pow: real -> real)
    requires IsHalfPower(pow) && WellFormed(s)
    ensures Step(s, nowMs, pow).0.value <= s.value
  {
    match s.phase
    case Suspended =>
      ResumeNeverIncreases(s, nowMs, pow);
      assert Step(s, nowMs, pow).0.value == Resume(s, nowMs, pow).value;
    case Created =>
      assert Step(s, nowMs, pow).0.value == s.value;
    case Finished =>
      assert Step(s, nowMs, pow).0.value == s.value;
  }

  lemma ResumeNeverIncreases(s: DecayState, nowMs: real, pow: real -> real)
    requires IsHalfPower(pow) && s.halfLifeMs > 0.0 && s.value >= 0.0
    ensures Resume(s, nowMs, pow).value <= s.value
  {
    var f := DecayFactor(Elapsed(nowMs, s.lastMs), s.halfLifeMs, pow);
    ScaleDown(s.value, f);
  }

  lemma ScaleDown(v: real, f: real)
    requires v >= 0.0 && 0.0 <= f <= 1.0
    ensures v * f <= v
  {
    assert v * f <= v * 1.0;
  }

  /**
   * Resuming with a timestamp at or before the last sample leaves the value
   * as it was and keeps the sequence going.
   */
  lemma BackwardClockKeepsValue(s: DecayState, nowMs: real, pow: real -> real)
    requires IsHalfPower(pow) && WellFormed(s) && s.phase == Suspended
    requires nowMs <= s.lastMs
    ensures Step(s, nowMs, pow) == (s.(lastMs := nowMs), IterResult(Some(s.value), false))
  {
    assert Elapsed(nowMs, s.lastMs) / s.halfLifeMs == 0.0;
  }

  /** The results of resuming a generator once per timestamp in `times`, in order. */
  function Run(s: DecayState, times: seq<real>, pow: real -> real): (rs: seq<IterResult>)
    requires s.halfLifeMs > 0.0
    ensures |rs| == |times|
    decreases |times|
  {
    if times == [] then []
    else
      var (next, r) := Step(s, times[0], pow);
      [r] + Run(next, times[1..], pow)
  }

  /**
   * What a run of results promises: every value yielded before the end lies
   * above the threshold and at or below `top`; successive yielded values never
   * increase; and once the sequence is done it stays done.
   */
  ghost predicate DecayTrace(rs: seq<IterResult>, top: real) {
    && (forall i :: 0 <= i < |rs| && !rs[i].done ==>
          rs[i].value.Some? && LocalEpsilon < rs[i].value.GetOr(0.0) <= top)
    && (forall i, j :: 0 <= i < j < |rs| && !rs[j].done ==>
          rs[j].value.GetOr(0.0) <= rs[i].value.GetOr(0.0))
    && (forall i, j :: 0 <= i <= j < |rs| && rs[i].done ==> rs[j].done)
  }

  /**
   * Any run of a generator, whatever the timestamps, is a decay trace bounded
   * by the value it started from; a generator that has returned yields nothing
   * more.
   */
  lemma {:induction false} RunNeverIncreases(s: DecayState, times: seq<real>, pow: real -> real)
    requires IsHalfPower(pow) && WellFormed(s)
    ensures DecayTrace(Run(s, times, pow), s.value)
    ensures s.phase == Finished ==> forall r :: r in Run(s, times, pow) ==> r.done
    decreases |times|
  {
    if times != [] {
      var step := Step(s, times[0], pow);
      var next, r := step.0, step.1;
      var rest := Run(next, times[1..], pow);
      RunNeverIncreases(next, times[1..], pow);
      StepNeverIncreases(s, times[0], pow);
      var rs := Run(s, times, pow);
      assert rs == [r] + rest;
      assert rs[0] == r;
      assert forall k :: 0 < k < |rs| ==> rs[k] == rest[k - 1];
      assert !r.done ==> r.value.GetOr(0.0) == next.value;
      assert r.done ==> next.phase == Finished && forall k :: 0 <= k < |rest| ==> rest[k].done;
      forall i | 0 <= i < |rs| && !rs[i].done
        ensures rs[i].value.Some? && LocalEpsilon < rs[i].value.GetOr(0.0) <= s.value
      {
        if i > 0 {
          assert rs[i] == rest[i - 1];
        }
      }
      forall i, j | 0 <= i < j < |rs| && !rs[j].done
        ensures rs[j].value.GetOr(0.0) <= rs[i].value.GetOr(0.0)
      {
        assert rs[j] == rest[j - 1];
        if i > 0 {
          assert rs[i] == rest[i - 1];
        }
      }
      forall i, j | 0 <= i <= j < |rs| && rs[i].done
        ensures rs[j].done
      {
        if i > 0 {
          assert rs[i] == rest[i - 1] && rs[j] == rest[j - 1];
        } else if j > 0 {
          assert rs[j] == rest[j - 1];
        }
      }
    }
  }

  /**
   * The generator object: `createExponentialDecayGenerator`'s closure state
   * with the generator's `next` as a method.
   */
  class DecayGenerator {
    const halfLifeMs: real
    const pow: real -> real
    var value: real
    var lastMs: real
    var phase: Phase

    /** The generator's locals as a value. */
    function State(): DecayState
      reads this
    {
      DecayState(halfLifeMs, value, lastMs, phase)
    }

    ghost predicate Valid()
      reads this
    {
      WellFormed(State())
    }

    /** A new generator, not yet started. */
    constructor (halfLifeMs: real, startValue: real, startMs: real, pow: real -> real)
      requires halfLifeMs > 0.0
      ensures Valid() && this.pow == pow
      ensures State() == Start(halfLifeMs, startValue, startMs)
    {
      this.halfLifeMs := halfLifeMs;
      this.pow := pow;
      value := startValue;
      lastMs := startMs;
      phase := Created;
    }

    /**
     * `next(nowMs)`: resume the body until its next `yield` or its `return`.
     * On the first call the timestamp is ignored, as a generator ignores the
     * argument of the call that starts it.
     */
    method Next(nowMs: real) returns (r: IterResult)
      requires Valid()
      modifies this
      ensures Valid()
      ensures (State(), r) == Step(old(State()), nowMs, pow)
    {
      if phase == Finished {
        return IterResult(None, true);
      }
      if phase == Suspended {
        var deltaMs := Elapsed(nowMs, lastMs);
        lastMs := nowMs;
        var decayFactor := DecayFactor(deltaMs, halfLifeMs, pow);
        value := value * decayFactor;
        assert State() == Resume(old(State()), nowMs, pow);
      }
      if value > LocalEpsilon {
        phase := Suspended;
        r := IterResult(Some(value), false);
      } else {
        phase := Finished;
        r := IterResult(Some(0.0), true);
      }
    }
  }
}
