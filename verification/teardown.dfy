/**
 * The Lit drum-machine element's lifecycle around its envelope loop: on
 * connect it registers the kick, snare and hat envelopes; on disconnect it
 * cancels the pending frame. Reconnecting the element and triggering a drum
 * must start the animation again.
 */
module LitTeardown {
  import opened Options
  import opened Decay
  import opened Scheduler

  /** The fixed threshold of the element's `tick`. */
  const TickEpsilon: real := 0.001

  /** `connectedCallback`: one envelope each for kick, snare and hat, with half-lives 220, 280 and 120 ms. */
  method Connect(loop: EnvelopeLoop) returns (kick: nat, snare: nat, hat: nat)
    requires loop.Valid()
    modifies loop`envelopes
    ensures loop.Valid()
    ensures kick == |old(loop.envelopes)| && snare == kick + 1 && hat == kick + 2
    ensures loop.View() == old(loop.View()) +
      [EnvView(0.0, 220.0, None), EnvView(0.0, 280.0, None), EnvView(0.0, 120.0, None)]
  {
    kick := loop.CreateEnvelope(220.0);
    snare := loop.CreateEnvelope(280.0);
    hat := loop.CreateEnvelope(120.0);
  }

  /**
   * Connect, hit the kick at `firstMs`, disconnect with the teardown as
   * written, reconnect and hit the new kick at `laterMs`: the new kick reads
   * the full amplitude, yet no `tick` callback is registered, so the loop
   * never runs again and the envelope never decays on screen.
   */
  method ReattachAsWritten(pow: real -> real, firstMs: real, laterMs: real) returns (stalled: bool)
    requires IsHalfPower(pow)
    ensures stalled
  {
    var loop := new EnvelopeLoop(TickEpsilon, pow);
    var kick, _, _ := Connect(loop);
    loop.Trigger(kick, 1.0, firstMs);
    loop.DisconnectAsWritten();
    var kick2, _, _ := Connect(loop);
    loop.Trigger(kick2, 1.0, laterMs);
    stalled := loop.Value(kick2) > loop.epsilon && loop.hostCallbacks == 0;
  }

  /**
   * The same sequence with a teardown that also clears `frameId`: the second
   * trigger registers exactly one `tick` callback.
   */
  method Reattach(pow: real -> real, firstMs: real, laterMs: real) returns (scheduled: bool)
    requires IsHalfPower(pow)
    ensures scheduled
  {
    var loop := new EnvelopeLoop(TickEpsilon, pow);
    var kick, _, _ := Connect(loop);
    loop.Trigger(kick, 1.0, firstMs);
    loop.Disconnect();
    var kick2, _, _ := Connect(loop);
    loop.Trigger(kick2, 1.0, laterMs);
    scheduled := loop.Value(kick2) > loop.epsilon && loop.framePending && loop.hostCallbacks == 1;
  }
}
