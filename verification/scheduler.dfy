/**
 * The envelope scheduler: a registry of envelopes sharing one per-frame
 * callback. `trigger` restarts an envelope's decay and makes sure a frame is
 * requested; every frame, `tick` resumes each live decay sequence with the
 * frame's timestamp, snaps finished envelopes to 0, renders once and requests
 * the next frame while anything is still above `epsilon`, and otherwise lets
 * the loop stop.
 *
 * The host is reduced to counters: `hostCallbacks` is the number of `tick`
 * callbacks registered with `requestAnimationFrame` that have neither run nor
 * been cancelled, and `renders` counts calls of the render callback.
 */
module Scheduler {
  import opened Options
  import opened Decay

  /** One envelope as the scheduler sees it: its last value, its half-life and, while live, its generator's state. */
  datatype EnvView = EnvView(value: real, halfLifeMs: real, gen: Option<DecayState>)

  /** One envelope record: `gen` is the live generator object, or null when idle. */
  datatype Envelope = Envelope(value: real, halfLifeMs: real, gen: DecayGenerator?)

  /**
   * What holds of every envelope between operations: a positive half-life; an
   * idle envelope reads 0; a live one holds a started generator with the same
   * half-life, and reads that generator's value while it is suspended, or at
   * most the threshold when it has already returned (a trigger with a tiny
   * amplitude).
   */
  ghost predicate EnvelopeInv(e: EnvView) {
    && e.halfLifeMs > 0.0
    && (match e.gen
        case None => e.value == 0.0
        case Some(s) =>
          && WellFormed(s) && s.halfLifeMs == e.halfLifeMs && s.phase != Created
          && (s.phase == Suspended ==> e.value == s.value)
          && (s.phase == Finished ==> e.value <= LocalEpsilon))
  }

  /**
   * The body of `tick`'s loop for one envelope: an idle envelope is skipped;
   * a live one takes the value its generator hands back and, when the
   * generator is done, drops it and snaps to 0.
   */
  function Advance(e: EnvView, nowMs: real, pow: real -> real): (r: EnvView)
    requires EnvelopeInv(e)
    ensures r.halfLifeMs == e.halfLifeMs
    ensures e.gen.None? ==> r == e
    ensures e.gen.Some? && Step(e.gen.value, nowMs, pow).1.done ==> r.value == 0.0 && r.gen == None
    ensures e.gen.Some? && !Step(e.gen.value, nowMs, pow).1.done ==>
      r.gen == Some(Step(e.gen.value, nowMs, pow).0) &&
      Some(r.value) == Step(e.gen.value, nowMs, pow).1.value && r.value > LocalEpsilon
  {
    match e.gen
    case None => e
    case Some(s) =>
      var step := Step(s, nowMs, pow);
      var value := step.1.value.GetOr(0.0);
      if step.1.done then EnvView(0.0, e.halfLifeMs, None)
      else EnvView(value, e.halfLifeMs, Some(step.0))
  }

  /** A frame keeps the envelope invariant. */
  lemma AdvanceKeepsInv(e: EnvView, nowMs: real, pow: real -> real)
    requires EnvelopeInv(e)
    ensures EnvelopeInv(Advance(e, nowMs, pow))
  {
  }

  /**
   * With a non-negative epsilon, an envelope sets `anyActive` exactly when its
   * value after the frame is above epsilon.
   */
  lemma ActivatesIffVisible(e: EnvView, nowMs: real, pow: real -> real, epsilon: real)
    requires EnvelopeInv(e) && 0.0 <= epsilon
    ensures Activates(e, nowMs, pow, epsilon) <==> Advance(e, nowMs, pow).value > epsilon
  {
  }

  /** A frame never raises a non-negative envelope value. */
  lemma AdvanceNeverRaises(e: EnvView, nowMs: real, pow: real -> real)
    requires IsHalfPower(pow) && EnvelopeInv(e) && e.value >= 0.0
    ensures Advance(e, nowMs, pow).value <= e.value
  {
    if e.gen.Some? && e.gen.value.phase == Suspended {
      StepNeverIncreases(e.gen.value, nowMs, pow);
    }
  }

  /** Every envelope advanced by one frame, in registration order. */
  function AdvanceAll(envs: seq<EnvView>, nowMs: real, pow: real -> real): (r: seq<EnvView>)
    requires forall i :: 0 <= i < |envs| ==> EnvelopeInv(envs[i])
    ensures |r| == |envs|
    ensures forall i :: 0 <= i < |envs| ==> r[i] == Advance(envs[i], nowMs, pow)
  {
    if envs == [] then []
    else [Advance(envs[0], nowMs, pow)] + AdvanceAll(envs[1..], nowMs, pow)
  }

  /**
   * Whether `tick` sets `anyActive` on envelope e: it is live, and its
   * generator hands back a value above epsilon without being done.
   */
  predicate Activates(e: EnvView, nowMs: real, pow: real -> real, epsilon: real) {
    && e.gen.Some? && e.gen.value.halfLifeMs > 0.0
    && var result := Step(e.gen.value, nowMs, pow).1;
       !result.done && result.value.GetOr(0.0) > epsilon
  }

  /** Whether some envelope keeps the loop running through this frame. */
  predicate SomeActive(envs: seq<EnvView>, nowMs: real, pow: real -> real, epsilon: real) {
    exists i :: 0 <= i < |envs| && Activates(envs[i], nowMs, pow, epsilon)
  }

  /** The `anyActive` flag after the loop of `tick` has visited the first n envelopes. */
  predicate ActiveAmong(envs: seq<EnvView>, n: nat, nowMs: real, pow: real -> real, epsilon: real)
    requires n <= |envs|
  {
    n > 0 && (ActiveAmong(envs, n - 1, nowMs, pow, epsilon) || Activates(envs[n - 1], nowMs, pow, epsilon))
  }

  /** The flag is set after n envelopes exactly when one of those n activates. */
  lemma {:induction false} ActiveAmongIffSome(envs: seq<EnvView>, n: nat, nowMs: real, pow: real -> real, epsilon: real)
    requires n <= |envs|
    ensures ActiveAmong(envs, n, nowMs, pow, epsilon) <==> SomeActive(envs[..n], nowMs, pow, epsilon)
  {
    if n > 0 {
      ActiveAmongIffSome(envs, n - 1, nowMs, pow, epsilon);
      assert envs[..n][..n - 1] == envs[..n - 1];
      if SomeActive(envs[..n], nowMs, pow, epsilon) {
        var j :| 0 <= j < n && Activates(envs[..n][j], nowMs, pow, epsilon);
        if j < n - 1 {
          assert envs[..n - 1][j] == envs[..n][j];
        }
      }
      if ActiveAmong(envs, n - 1, nowMs, pow, epsilon) {
        var j :| 0 <= j < n - 1 && Activates(envs[..n - 1][j], nowMs, pow, epsilon);
        assert envs[..n][j] == envs[..n - 1][j];
      }
      if Activates(envs[n - 1], nowMs, pow, epsilon) {
        assert envs[..n][n - 1] == envs[n - 1];
      }
    }
  }

  /**
   * With a non-negative epsilon, a frame keeps the loop running exactly when
   * some envelope's new value is above epsilon: if it keeps running, some
   * envelope is above epsilon; if it stops, every envelope is at or below it.
   */
  lemma TickRunsIffVisible(envs: seq<EnvView>, nowMs: real, pow: real -> real, epsilon: real)
    requires forall i :: 0 <= i < |envs| ==> EnvelopeInv(envs[i])
    requires 0.0 <= epsilon
    ensures SomeActive(envs, nowMs, pow, epsilon) ==>
      exists i :: 0 <= i < |envs| && AdvanceAll(envs, nowMs, pow)[i].value > epsilon
    ensures !SomeActive(envs, nowMs, pow, epsilon) ==>
      forall i :: 0 <= i < |envs| ==> AdvanceAll(envs, nowMs, pow)[i].value <= epsilon
  {
    var after := AdvanceAll(envs, nowMs, pow);
    if SomeActive(envs, nowMs, pow, epsilon) {
      var i :| 0 <= i < |envs| && Activates(envs[i], nowMs, pow, epsilon);
      assert after[i].value > epsilon;
    } else {
      forall i | 0 <= i < |envs|
        ensures after[i].value <= epsilon
      {
        ActivatesIffVisible(envs[i], nowMs, pow, epsilon);
      }
    }
  }

  /**
   * An envelope just triggered with `amplitude` at `nowMs`: its value is the
   * amplitude and its generator is a fresh one started at `nowMs` and primed
   * (run to its first `yield`, or straight to its end for an amplitude at or
   * below the threshold). Nothing of the previous decay survives.
   */
  function Retriggered(e: EnvView, amplitude: real, nowMs: real, pow: real -> real): (r: EnvView)
    requires e.halfLifeMs > 0.0
    ensures r.value == amplitude && r.halfLifeMs == e.halfLifeMs
    ensures r.gen.Some? && r.gen.value.lastMs == nowMs
    ensures r.gen.value.phase == (if amplitude > LocalEpsilon then Suspended else Finished)
    ensures EnvelopeInv(r)
  {
    EnvView(amplitude, e.halfLifeMs, Some(Step(Start(e.halfLifeMs, amplitude, nowMs), nowMs, pow).0))
  }

  /**
   * The first frame after a trigger samples the decay from the trigger time:
   * whatever the envelope held before, it then reads amplitude times the
   * factor for the time since the trigger, or 0 (and goes idle) once that is at
   * or below the threshold.
   */
  lemma RetriggerRestartsDecay(e: EnvView, amplitude: real, triggerMs: real, nowMs: real, pow: real -> real)
    requires e.halfLifeMs > 0.0
    ensures var v := amplitude * DecayFactor(Elapsed(nowMs, triggerMs), e.halfLifeMs, pow);
      Advance(Retriggered(e, amplitude, triggerMs, pow), nowMs, pow) ==
        if amplitude > LocalEpsilon && v > LocalEpsilon
        then EnvView(v, e.halfLifeMs, Some(DecayState(e.halfLifeMs, v, nowMs, Suspended)))
        else EnvView(0.0, e.halfLifeMs, None)
  {
    var triggered := Retriggered(e, amplitude, triggerMs, pow);
    var primed := triggered.gen.value;
    if amplitude > LocalEpsilon {
      assert primed == DecayState(e.halfLifeMs, amplitude, triggerMs, Suspended);
      var resumed := Resume(primed, nowMs, pow);
      assert resumed == DecayState(e.halfLifeMs, amplitude * DecayFactor(Elapsed(nowMs, triggerMs), e.halfLifeMs, pow), nowMs, Suspended);
      assert Step(primed, nowMs, pow) == Continue(resumed);
    } else {
      assert primed.phase == Finished;
      assert Step(primed, nowMs, pow).1.done;
    }
  }

  /**
   * A trigger with an amplitude at or below the threshold, a negative one
   * included, leaves a generator that has already returned, so the next frame
   * snaps the envelope to 0 and idles it without any decay.
   */
  lemma SmallTriggerSnapsToZero(e: EnvView, amplitude: real, triggerMs: real, nowMs: real, pow: real -> real)
    requires e.halfLifeMs > 0.0 && amplitude <= LocalEpsilon
    ensures Advance(Retriggered(e, amplitude, triggerMs, pow), nowMs, pow) == EnvView(0.0, e.halfLifeMs, None)
  {
    var primed := Retriggered(e, amplitude, triggerMs, pow).gen.value;
    assert primed.phase == Finished;
    assert Step(primed, nowMs, pow).1.done;
  }

  /** The generator objects held by a sequence of envelope records. */
  ghost function GensOf(es: seq<Envelope>): set<DecayGenerator> {
    set i | 0 <= i < |es| && es[i].gen != null :: es[i].gen
  }

  /** No generator object is shared by two envelopes. */
  ghost predicate DistinctGens(es: seq<Envelope>) {
    forall i, j :: 0 <= i < j < |es| && es[i].gen != null ==> es[i].gen != es[j].gen
  }

  /** The generator objects of the records are distinct and all decay with `pow`. */
  ghost predicate GensOwned(es: seq<Envelope>, pow: real -> real) {
    && DistinctGens(es)
    && (forall i :: 0 <= i < |es| && es[i].gen != null ==> es[i].gen.pow == pow)
  }

  /** Dropping some generators and keeping the others where they were keeps them distinct and owned. */
  lemma KeepsGensOwned(olds: seq<Envelope>, es: seq<Envelope>, pow: real -> real)
    requires GensOwned(olds, pow) && |es| == |olds|
    requires forall j :: 0 <= j < |es| ==> es[j].gen == null || es[j].gen == olds[j].gen
    ensures GensOwned(es, pow)
  {
  }

  /** One record read as a view: the generator object replaced by its state. */
  function ViewOf(e: Envelope): EnvView
    reads e.gen
  {
    EnvView(e.value, e.halfLifeMs, if e.gen == null then None else Some(e.gen.State()))
  }

  /** The records read as views, in order. */
  ghost function Views(es: seq<Envelope>): (vs: seq<EnvView>)
    reads GensOf(es)
    ensures |vs| == |es|
    ensures forall i :: 0 <= i < |es| ==> vs[i] == ViewOf(es[i])
  {
    if es == [] then []
    else
      assert GensOf(es[1..]) <= GensOf(es) by {
        forall g | g in GensOf(es[1..]) ensures g in GensOf(es) {
          var k :| 0 <= k < |es[1..]| && es[1..][k].gen != null && es[1..][k].gen == g;
          assert es[k + 1].gen == g;
        }
      }
      [ViewOf(es[0])] + Views(es[1..])
  }

  /** Records that each read as the advanced view of `before` read, together, as `AdvanceAll(before)`. */
  lemma AdvancedViews(es: seq<Envelope>, before: seq<EnvView>, nowMs: real, pow: real -> real)
    requires |es| == |before| && forall j :: 0 <= j < |before| ==> EnvelopeInv(before[j])
    requires forall j :: 0 <= j < |es| ==> ViewOf(es[j]) == Advance(before[j], nowMs, pow)
    ensures forall j :: 0 <= j < |es| ==> EnvelopeInv(ViewOf(es[j]))
    ensures Views(es) == AdvanceAll(before, nowMs, pow)
  {
    forall j | 0 <= j < |es|
      ensures EnvelopeInv(ViewOf(es[j]))
    {
      AdvanceKeepsInv(before[j], nowMs, pow);
    }
  }

  /**
   * The state `createEnvelopeLoop` closes over (and the Lit `Equalizer`'s
   * `frameId` and `envelopeStates` fields).
   */
  class EnvelopeLoop {
    const epsilon: real
    const pow: real -> real
    var envelopes: seq<Envelope>
    /** `frameId != null`. */
    var framePending: bool
    var hostCallbacks: nat
    var renders: nat

    ghost function Gens(): set<DecayGenerator>
      reads this`envelopes
    {
      GensOf(envelopes)
    }

    ghost function View(): seq<EnvView>
      reads this`envelopes, Gens()
    {
      Views(envelopes)
    }

    ghost predicate Valid()
      reads this`envelopes, Gens()
    {
      && IsHalfPower(pow)
      && GensOwned(envelopes, pow)
      && (forall i :: 0 <= i < |envelopes| ==> EnvelopeInv(ViewOf(envelopes[i])))
    }

    /** The frame handle and the host agree: one callback registered exactly when `frameId` is set. */
    predicate OneFrameCallback()
      reads this`framePending, this`hostCallbacks
    {
      hostCallbacks == if framePending then 1 else 0
    }

    /** `createEnvelopeLoop(render, epsilon)`: no envelopes and no frame requested. */
    constructor (epsilon: real, pow: real -> real)
      requires IsHalfPower(pow)
      ensures Valid() && OneFrameCallback()
      ensures this.epsilon == epsilon && this.pow == pow
      ensures envelopes == [] && !framePending && hostCallbacks == 0 && renders == 0
    {
      this.epsilon := epsilon;
      this.pow := pow;
      envelopes := [];
      framePending := false;
      hostCallbacks := 0;
      renders := 0;
    }

    /** `createEnvelope(halfLifeMs)`: append an idle envelope; its handle is its position. */
    method CreateEnvelope(halfLifeMs: real) returns (handle: nat)
      requires Valid() && halfLifeMs > 0.0
      modifies this`envelopes
      ensures Valid()
      ensures handle == |old(envelopes)|
      ensures envelopes == old(envelopes) + [Envelope(0.0, halfLifeMs, null)]
      ensures View() == old(View()) + [EnvView(0.0, halfLifeMs, None)]
      ensures framePending == old(framePending) && hostCallbacks == old(hostCallbacks)
      ensures renders == old(renders)
    {
      handle := |envelopes|;
      envelopes := envelopes + [Envelope(0.0, halfLifeMs, null)];
    }

    /** The handle's `value` getter: 0 while idle, the latest sample while decaying. */
    function Value(handle: nat): (v: real)
      reads this`envelopes, Gens()
      requires Valid() && handle < |envelopes|
      ensures v == View()[handle].value
      ensures envelopes[handle].gen == null ==> v == 0.0
      ensures envelopes[handle].gen != null && envelopes[handle].gen.phase == Suspended ==>
        v == envelopes[handle].gen.value > LocalEpsilon
    {
      assert EnvelopeInv(ViewOf(envelopes[handle]));
      envelopes[handle].value
    }

    /** `frameId = requestAnimationFrame(tick)`. */
    method RequestFrame()
      modifies this`framePending, this`hostCallbacks
      ensures framePending && hostCallbacks == old(hostCallbacks) + 1
      ensures envelopes == old(envelopes) && renders == old(renders)
    {
      hostCallbacks := hostCallbacks + 1;
      framePending := true;
    }

    /** `ensureLoop`: request a frame only when none is pending, so repeated calls leave one. */
    method EnsureLoop()
      modifies this`framePending, this`hostCallbacks
      ensures framePending
      ensures hostCallbacks == if old(framePending) then old(hostCallbacks) else old(hostCallbacks) + 1
      ensures old(OneFrameCallback()) ==> OneFrameCallback()
      ensures envelopes == old(envelopes) && renders == old(renders)
    {
      if !framePending {
        RequestFrame();
      }
    }

    /**
     * The handle's `trigger(amplitude)` at time `nowMs`: the value becomes the
     * amplitude at once, a fresh generator started at `nowMs` replaces the old
     * one and is primed, and a frame is made sure to be pending. No other
     * envelope changes.
     */
    method Trigger(handle: nat, amplitude: real, nowMs: real)
      requires Valid() && handle < |envelopes|
      modifies this`envelopes, this`framePending, this`hostCallbacks
      ensures Valid()
      ensures |envelopes| == |old(envelopes)|
      ensures View() == old(View())[handle := Retriggered(old(View())[handle], amplitude, nowMs, pow)]
      ensures fresh(envelopes[handle].gen)
      ensures framePending
      ensures hostCallbacks == if old(framePending) then old(hostCallbacks) else old(hostCallbacks) + 1
      ensures old(OneFrameCallback()) ==> OneFrameCallback()
      ensures renders == old(renders)
    {
      ghost var before := View();
      var state := envelopes[handle];
      assert EnvelopeInv(before[handle]);
      var gen := new DecayGenerator(state.halfLifeMs, amplitude, nowMs, pow);
      var _ := gen.Next(nowMs);
      envelopes := envelopes[handle := Envelope(amplitude, state.halfLifeMs, gen)];
      EnsureLoop();
      assert ViewOf(envelopes[handle]) == Retriggered(before[handle], amplitude, nowMs, pow);
      assert forall k :: 0 <= k < |envelopes| && k != handle ==> ViewOf(envelopes[k]) == before[k];
    }

    /**
     * `tick(nowMs)`, run by the host for a registered callback: every envelope
     * advances by one frame; render is called once and the next frame
     * requested exactly when some envelope sets `anyActive`; otherwise
     * `frameId` is cleared and the loop stops.
     */
    method Tick(nowMs: real)
      requires Valid() && hostCallbacks > 0
      modifies this, Gens()
      ensures Valid()
      ensures View() == AdvanceAll(old(View()), nowMs, pow)
      ensures framePending == SomeActive(old(View()), nowMs, pow, epsilon)
      ensures renders == old(renders) + (if framePending then 1 else 0)
      ensures hostCallbacks == old(hostCallbacks) - 1 + (if framePending then 1 else 0)
      ensures old(OneFrameCallback()) ==> OneFrameCallback()
    {
      var anyActive := AdvanceEnvelopes(nowMs);
      FinishTick(anyActive);
    }

    /**
     * The end of `tick`: the callback that ran is used up; on `anyActive`
     * render and request the next frame, otherwise clear `frameId`.
     */
    method FinishTick(anyActive: bool)
      requires hostCallbacks > 0
      modifies this`renders, this`framePending, this`hostCallbacks
      ensures framePending == anyActive
      ensures renders == old(renders) + (if anyActive then 1 else 0)
      ensures hostCallbacks == old(hostCallbacks) - 1 + (if anyActive then 1 else 0)
      ensures old(OneFrameCallback()) ==> OneFrameCallback()
    {
      hostCallbacks := hostCallbacks - 1;
      if anyActive {
        renders := renders + 1;
        RequestFrame();
      } else {
        framePending := false;
      }
    }

    /**
     * The loop of `tick`: advance every envelope in order, and report whether
     * any of them set `anyActive`.
     */
    method AdvanceEnvelopes(nowMs: real) returns (anyActive: bool)
      requires Valid()
      modifies this`envelopes, Gens()
      ensures Valid()
      ensures View() == AdvanceAll(old(View()), nowMs, pow)
      ensures anyActive == SomeActive(old(View()), nowMs, pow, epsilon)
    {
      ghost var before := View();
      ghost var after := AdvanceAll(before, nowMs, pow);
      anyActive := false;
      for i := 0 to |envelopes|
        invariant |envelopes| == |before|
        invariant forall j :: 0 <= j < i ==>
          (envelopes[j].gen == null || envelopes[j].gen == old(envelopes[j].gen)) &&
          ViewOf(envelopes[j]) == after[j]
        invariant forall j :: i <= j < |envelopes| ==>
          envelopes[j] == old(envelopes[j]) && ViewOf(envelopes[j]) == before[j]
        invariant anyActive == ActiveAmong(before, i, nowMs, pow, epsilon)
      {
        assert EnvelopeInv(before[i]);
        var active := AdvanceAt(i, nowMs);
        anyActive := anyActive || active;
      }
      AdvancedViews(envelopes, before, nowMs, pow);
      KeepsGensOwned(old(envelopes), envelopes, pow);
      ActiveAmongIffSome(before, |before|, nowMs, pow, epsilon);
      assert before[..|before|] == before;
    }

    /**
     * One pass of `tick`'s loop body: resume envelope i's generator, if it has
     * one, store the value it hands back, and on `done` drop the generator and
     * snap the value to 0. Reports whether the envelope sets `anyActive`.
     */
    method AdvanceAt(i: nat, nowMs: real) returns (active: bool)
      requires i < |envelopes| && EnvelopeInv(ViewOf(envelopes[i]))
      requires envelopes[i].gen != null ==> envelopes[i].gen.pow == pow
      requires forall j :: 0 <= j < |envelopes| && j != i ==>
        envelopes[j].gen == null || envelopes[j].gen != envelopes[i].gen
      modifies this`envelopes, if envelopes[i].gen == null then {} else {envelopes[i].gen}
      ensures |envelopes| == |old(envelopes)|
      ensures forall j :: 0 <= j < |envelopes| && j != i ==>
        envelopes[j] == old(envelopes[j]) && ViewOf(envelopes[j]) == old(ViewOf(envelopes[j]))
      ensures envelopes[i].gen == null || envelopes[i].gen == old(envelopes[i].gen)
      ensures ViewOf(envelopes[i]) == Advance(old(ViewOf(envelopes[i])), nowMs, pow)
      ensures active == Activates(old(ViewOf(envelopes[i])), nowMs, pow, epsilon)
    {
      var state := envelopes[i];
      active := false;
      if state.gen != null {
        var gen := state.gen;
        var result := gen.Next(nowMs);
        var value := result.value.GetOr(0.0);
        if result.done {
          gen := null;
          value := 0.0;
        } else if value > epsilon {
          active := true;
        }
        envelopes := envelopes[i := Envelope(value, state.halfLifeMs, gen)];
      }
    }

    /** `cancelAnimationFrame(frameId)`: withdraw the registered callback if it has not run. */
    method CancelFrame()
      modifies this`hostCallbacks
      ensures hostCallbacks == if old(hostCallbacks) > 0 then old(hostCallbacks) - 1 else 0
      ensures framePending == old(framePending)
      ensures envelopes == old(envelopes) && renders == old(renders)
    {
      if hostCallbacks > 0 {
        hostCallbacks := hostCallbacks - 1;
      }
    }

    /**
     * The Lit element's `disconnectedCallback` as written: it cancels the
     * pending frame but leaves `frameId` set.
     */
    method DisconnectAsWritten()
      modifies this`hostCallbacks
      ensures framePending == old(framePending)
      ensures hostCallbacks ==
        if old(framePending) && old(hostCallbacks) > 0 then old(hostCallbacks) - 1 else old(hostCallbacks)
      ensures old(OneFrameCallback()) ==> hostCallbacks == 0
      ensures envelopes == old(envelopes) && renders == old(renders)
    {
      if framePending {
        CancelFrame();
      }
    }

    /**
     * Teardown that cancels the pending frame and clears `frameId`, so that a
     * later trigger requests a frame again.
     */
    method Disconnect()
      modifies this`framePending, this`hostCallbacks
      ensures !framePending
      ensures hostCallbacks ==
        if old(framePending) && old(hostCallbacks) > 0 then old(hostCallbacks) - 1 else old(hostCallbacks)
      ensures old(OneFrameCallback()) ==> hostCallbacks == 0 && OneFrameCallback()
      ensures envelopes == old(envelopes) && renders == old(renders)
    {
      if framePending {
        CancelFrame();
        framePending := false;
      }
    }
  }
}
