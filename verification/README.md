# Envelope animation scheduler

The drum-machine demos animate their equalizer bars with one small scheduler.
It appears three times, once per UI framework, with the same logic each time:

- `createExponentialDecayGenerator` and `createEnvelopeLoop` in
  `examples/style-preact/drum-machine/components.tsx` (lines 197-275);
- the same two functions in `examples/dom-signals/drum-machine/components.tsx`
  (lines 145-223, each line 52 lines earlier than in the Preact copy);
- the `Equalizer` element's members in `examples/events-lit/drum-machine/app.ts`
  (lines 106-223). Here the tick threshold is fixed at 0.001, so this copy is
  the loop built with `epsilon = 0.001`.

The scheduler has two parts.

- **The decay sequence.** This is a generator that starts at an amplitude.
  Each time it is resumed with a timestamp, it multiplies its value by
  0.5^(elapsed / halfLife), where the elapsed time is clamped at zero. It
  yields the new value while that value is above 0.001, and otherwise returns 0.
- **The envelope loop.** This is an ordered list of envelope records
  `{value, halfLifeMs, gen}` plus one frame handle `frameId`.
  - `trigger` sets the value, installs a fresh primed generator and calls
    `ensureLoop`.
  - `ensureLoop` requests an animation frame only when none is pending.
  - Every frame, `tick` resumes every live generator and snaps finished
    envelopes to 0. It then renders once and requests the next frame when some
    envelope is above `epsilon`. Otherwise it clears `frameId`.

The Dafny model has four modules.

- `Options` (`options.dfy`) holds the `Option` type, used for a generator result's possibly absent value.

- `Decay` (`decay.dfy`) models the generator.
  - The pure function `Step` specifies one call of `next`.
  - `Run` gives the results of a whole series of calls.
  - The class `DecayGenerator` holds the generator's locals. Its `Next` method
    is proved equal to `Step`.
  - `Math.pow(0.5, x)` is a parameter `pow`. The model knows only the facts in
    `IsHalfPower`: `pow(0) = 1`, `pow(x)` lies in [0, 1] for x ≥ 0, and `pow`
    does not increase.
- `Scheduler` (`scheduler.dfy`) models the loop as the class `EnvelopeLoop`.
  - The field `envelopes` is a sequence of records. A handle is a position in
    that sequence. Each record holds a `DecayGenerator` object or null.
  - `framePending` stands for `frameId != null`.
  - `hostCallbacks` counts the `tick` callbacks registered with
    `requestAnimationFrame` that have neither run nor been cancelled.
  - `renders` counts calls of `render` (`requestUpdate` in the Lit copy).
  - Every method is proved against pure functions on `View()`, the list of
    envelopes with each generator object replaced by its state: `Advance` and
    `AdvanceAll` for a frame, `Retriggered` for a trigger.
- `LitTeardown` (`teardown.dfy`) models the Lit element's `connectedCallback`.
  It also models a disconnect followed by a reconnect, for the finding below.

## Model

| member | source | states |
|---|---|---|
| Decay.Elapsed | examples/style-preact/drum-machine/components.tsx:209 | The elapsed time is never negative. A timestamp at or before the last sample gives 0. A later one gives the difference. |
| Decay.DecayFactor | examples/style-preact/drum-machine/components.tsx:211 | The per-step factor lies in [0, 1] for a non-negative elapsed time, and is exactly 1 when no time has elapsed. |
| Decay.DecayFactorMonotone | examples/style-preact/drum-machine/components.tsx:209-211 | More elapsed time never gives a larger factor. |
| Decay.Step | examples/style-preact/drum-machine/components.tsx:203-215 | One `next` call. `done` holds exactly when the generator has returned. A yielded value is above 0.001. The call that ends the sequence returns 0 and leaves a value at or below 0.001. A returned generator answers `done` with no value and stays as it is. Well-formed states stay well-formed. |
| Decay.LaterResumeNeverLarger | examples/style-preact/drum-machine/components.tsx:207-212 | Of two resumptions of the same suspended generator, the one with the later timestamp never leaves a larger value. |
| Decay.StepNeverIncreases | examples/style-preact/drum-machine/components.tsx:206-213 | No call of `next` raises the generator's value. |
| Decay.BackwardClockKeepsValue | examples/style-preact/drum-machine/components.tsx:209-212 | Resuming with a timestamp at or before the last sample yields the unchanged value and only moves `lastMs`. |
| Decay.RunNeverIncreases | examples/style-preact/drum-machine/components.tsx:203-214 | For any timestamps: every yielded value lies in (0.001, start value]; successive yielded values never increase; once done, the sequence stays done. A returned generator yields nothing more. |
| Decay.Run | examples/style-preact/drum-machine/components.tsx:203-215 | Resuming a generator once per timestamp gives one result per timestamp. |
| Decay.DecayGenerator.constructor | examples/style-preact/drum-machine/components.tsx:197-205 | A new generator holds the start value and start time, and its body has not run yet. |
| Decay.DecayGenerator.Next | examples/style-preact/drum-machine/components.tsx:206-214 | `next(nowMs)` changes the locals and returns exactly what `Step` specifies, and keeps the generator well-formed. |
| Scheduler.Advance | examples/style-preact/drum-machine/components.tsx:237-247 | An idle envelope is unchanged. A finished one ends with value 0 and no generator. Otherwise the envelope holds the value `next` yielded, which is above 0.001, and the generator in the state `next` left it in. |
| Scheduler.AdvanceKeepsInv | examples/style-preact/drum-machine/components.tsx:238-246 | A frame keeps the envelope invariant. |
| Scheduler.ActivatesIffVisible | examples/style-preact/drum-machine/components.tsx:240-246 | With epsilon ≥ 0, an envelope sets `anyActive` exactly when its new value is above epsilon. |
| Scheduler.AdvanceNeverRaises | examples/style-preact/drum-machine/components.tsx:238-246 | A frame never raises a non-negative envelope value. |
| Scheduler.AdvanceAll | examples/style-preact/drum-machine/components.tsx:236-248 | A frame advances every envelope, in order, and keeps the number of envelopes. |
| Scheduler.ActiveAmongIffSome | examples/style-preact/drum-machine/components.tsx:235-248 | After the loop has visited n envelopes, `anyActive` is set exactly when one of those n activates. |
| Scheduler.TickRunsIffVisible | examples/style-preact/drum-machine/components.tsx:244-254 | With epsilon ≥ 0: if the loop keeps running, some envelope's new value is above epsilon. If it stops, every new value is at or below epsilon. |
| Scheduler.Retriggered | examples/style-preact/drum-machine/components.tsx:264-268 | A trigger sets the value to the amplitude and installs a generator started at the trigger time. That generator is suspended when the amplitude is above 0.001, and has already returned otherwise. |
| Scheduler.RetriggerRestartsDecay | examples/style-preact/drum-machine/components.tsx:264-268 | The first frame after a trigger decays from the amplitude over the time since the trigger, whatever the envelope held before. |
| Scheduler.SmallTriggerSnapsToZero | examples/style-preact/drum-machine/components.tsx:238-243 | After a trigger with an amplitude at or below 0.001, including a negative one, the next frame sets the value to 0 and drops the generator. |
| Scheduler.AdvancedViews | examples/style-preact/drum-machine/components.tsx:236-248 | Records that each read as an advanced envelope together read as `AdvanceAll` of the old envelopes, and they satisfy the invariant. |
| Scheduler.EnvelopeLoop.constructor | examples/style-preact/drum-machine/components.tsx:219-228 | A new loop has no envelopes, no pending frame, no registered callback and no render. |
| Scheduler.EnvelopeLoop.CreateEnvelope | examples/style-preact/drum-machine/components.tsx:257-259 | Appends one idle envelope with value 0. Existing envelopes and the frame state are unchanged. The handle is the new position. |
| Scheduler.EnvelopeLoop.Value | examples/style-preact/drum-machine/components.tsx:261-263 | The getter reads the envelope's current value. That is 0 when idle, and the generator's value, above 0.001, while decaying. |
| Scheduler.EnvelopeLoop.RequestFrame | examples/style-preact/drum-machine/components.tsx:231 | Sets the frame handle and registers one more callback. |
| Scheduler.EnvelopeLoop.EnsureLoop | examples/style-preact/drum-machine/components.tsx:230-232 | Afterwards a frame is pending. A callback is registered only when none was pending, so repeated calls leave exactly one. |
| Scheduler.EnvelopeLoop.Trigger | examples/style-preact/drum-machine/components.tsx:264-270 | Only the triggered envelope changes, to `Retriggered`, with a freshly allocated generator. A frame is pending afterwards, and the one-callback invariant is kept. |
| Scheduler.EnvelopeLoop.Tick | examples/style-preact/drum-machine/components.tsx:234-255 | The envelopes become `AdvanceAll` of the old ones. A frame is pending afterwards exactly when some envelope activated. `render` ran once in that case and not otherwise. One callback is used up and one is registered only when the loop continues. |
| Scheduler.EnvelopeLoop.FinishTick | examples/style-preact/drum-machine/components.tsx:249-254 | With `anyActive`: one render and a new frame request. Without it: `frameId` is cleared. |
| Scheduler.EnvelopeLoop.AdvanceEnvelopes | examples/style-preact/drum-machine/components.tsx:236-248 | The loop over the envelopes gives `AdvanceAll` of the old envelopes. It returns whether some envelope activated. |
| Scheduler.EnvelopeLoop.AdvanceAt | examples/style-preact/drum-machine/components.tsx:237-247 | Advances envelope i as `Advance` says and reports whether it activates. Every other envelope, and what it reads, is unchanged. |
| Scheduler.EnvelopeLoop.CancelFrame | examples/events-lit/drum-machine/app.ts:137-139 | Withdraws the registered callback if there is one. |
| Scheduler.EnvelopeLoop.DisconnectAsWritten | examples/events-lit/drum-machine/app.ts:128-140 | The Lit teardown as written: when `frameId` is set, one registered callback is withdrawn if there is one, and `frameId` stays set. A second disconnect with a stale `frameId` and no callback changes nothing. |
| Scheduler.EnvelopeLoop.Disconnect | examples/events-lit/drum-machine/app.ts:128-140 | Teardown that also clears `frameId`: when a frame was pending, one registered callback is withdrawn if there is one. Afterwards no frame is pending, and the one-callback invariant holds if it held before. |
| LitTeardown.Connect | examples/events-lit/drum-machine/app.ts:106-112 | Connecting appends idle kick, snare and hat envelopes with half-lives 220, 280 and 120 ms. |
| LitTeardown.ReattachAsWritten | examples/events-lit/drum-machine/app.ts:106-168 | Sequence: connect, trigger, disconnect as written, reconnect, trigger. The new kick reads the full amplitude, but no `tick` callback is registered. |
| LitTeardown.Reattach | examples/events-lit/drum-machine/app.ts:106-168 | The same sequence using `Disconnect` registers exactly one `tick` callback and leaves a frame pending. |

## Left out

- `Math.pow(0.5, x)` and floating-point rounding. The factor is a parameter known only through `IsHalfPower`, and the arithmetic is on reals. Numeric half-life values and the number of frames until a decay ends are therefore not modelled. The factor is allowed to be 0, which covers `Math.pow` underflowing to 0 for large exponents.
- The default arguments `trigger(amplitude = 1)` and `createEnvelopeLoop(render, epsilon = 0.001)`. `Trigger` and the `EnvelopeLoop` constructor always take them explicitly. Calling with the default is the same as passing 1 or 0.001.
- The `performance.now()` fallback inside the generator, used when `next` is called without a number. Every timestamp is a parameter, and the fallback branch is not modelled. The priming `next()` in `trigger` ignores its argument as a fresh generator does.
- The clock read in `trigger` (`performance.now()`). `Trigger` takes the time as `nowMs`.
- `requestAnimationFrame` and `cancelAnimationFrame`. They appear only as the `framePending` flag and the `hostCallbacks` count. The host's calls of `tick` are calls of `Tick`, and the timestamp is a parameter.
- Rendering. `render` and `requestUpdate` are a counter. The views, styling, the drummer events and their cleanup in the Lit lifecycle callbacks are not part of this model.
- Scheduler.EnvelopeLoop.CreateEnvelope: requires `halfLifeMs > 0`. The code never checks the half-life. With 0 it divides by zero, and with a negative half-life the value grows. Every caller passes 220, 280 or 120.
- Scheduler.AdvanceNeverRaises: requires a non-negative value, because `trigger` passes its amplitude through unclamped. A negative amplitude fails the generator's `value > localEpsilon` test when `trigger` primes it, so the generator returns at once. The next `tick` then sets the value to 0 in one step, with no decay factor applied. That step raises the value, and `Scheduler.SmallTriggerSnapsToZero` states it.
- Scheduler.EnvelopeLoop.Tick: requires a registered callback (`hostCallbacks > 0`), because the host only runs `tick` for a registered callback.

## Findings

| source | as written | input that shows it | evidently intended | confidence | as-written member | corrected member |
|---|---|---|---|---|---|---|
| examples/events-lit/drum-machine/app.ts:128-140 | `disconnectedCallback` cancels the pending frame but leaves `frameId` set. `ensureLoop` then sees a pending frame and never requests another one. | Connect, hit the kick, disconnect before the frame fires, reconnect and hit the kick again. The new envelope reads 1 but no `tick` is ever scheduled, so the bars freeze. | The teardown should also set `frameId = null`, so that a trigger after reconnecting starts the loop again. | not executed | LitTeardown.ReattachAsWritten (with Scheduler.EnvelopeLoop.DisconnectAsWritten) | LitTeardown.Reattach (with Scheduler.EnvelopeLoop.Disconnect) |
