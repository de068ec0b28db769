/**
 * `Time`: the fixed-timestep main loop.  Each frame reads the clock, adds the
 * elapsed time (clamped to `frameLimit`) to an accumulator, runs physics
 * ticks of `dt` while the accumulator holds at least `dt`, then renders with
 * the leftover fraction of a step.  A physics tick that answers false ends
 * the loop.
 *
 * Durations are integers in clock ticks; the model takes the clock's tick to
 * be one nanosecond.  Clock readings are the loop's input, and the physics
 * callback is an oracle `physTick(n)` giving the answer of its `n`-th call.
 */
module FixedStep {
  /** Clock ticks per millisecond. */
  const Ms: nat := 1_000_000
  /** `Time::dt`: 30 ms of simulation per physics tick. */
  const Dt: nat := 30 * Ms
  /** `Time::frameLimit`: at most 250 ms of elapsed time is simulated per frame. */
  const FrameLimit: nat := 250 * Ms

  /** The frame time after the `frameLimit` clamp. */
  function Clamp(frameTime: int, limit: int): (r: int)
    ensures r <= limit
    ensures r == frameTime || r == limit
    ensures frameTime <= limit ==> r == frameTime
  {
    if frameTime > limit then limit else frameTime
  }

  /**
   * The tick loop: while the accumulator holds a step, call the physics tick
   * (call number `calls`); stop the loop on a false answer, otherwise spend
   * the step.  The result is the new accumulator, the new call count, and
   * whether the loop ran to completion.
   */
  function Drain(acc: int, calls: nat, physTick: nat -> bool): (int, nat, bool)
    decreases if acc < Dt then 0 else acc
  {
    if acc < Dt then (acc, calls, true)
    else if !physTick(calls) then (acc, calls + 1, false)
    else Drain(acc - Dt, calls + 1, physTick)
  }

  /**
   * What the tick loop does: each tick it spends (all but a failed last one)
   * takes one step from the accumulator; on completion less than a step is
   * left, and on a stop the failed call is the last one made; every other
   * call made answered true.
   */
  lemma {:induction false} DrainSpec(acc: int, calls: nat, physTick: nat -> bool)
    decreases if acc < Dt then 0 else acc
    ensures var r := Drain(acc, calls, physTick);
      && r.1 >= calls
      && (var spent := r.1 - calls - (if r.2 then 0 else 1); spent >= 0 && r.0 == acc - spent * Dt)
      && (r.2 ==> r.0 < Dt)
      && (!r.2 ==> r.0 >= Dt && !physTick(r.1 - 1))
      && (forall j :: calls <= j < r.1 && (r.2 || j < r.1 - 1) ==> physTick(j))
      && (acc >= 0 ==> r.0 >= 0)
  {
    if acc >= Dt && physTick(calls) {
      DrainSpec(acc - Dt, calls + 1, physTick);
    }
  }

  /**
   * A completed tick loop from a non-negative accumulator runs exactly
   * `acc / dt` ticks and leaves `acc % dt`.
   */
  lemma {:induction false} DrainCompleteSplitsSteps(acc: int, calls: nat, physTick: nat -> bool)
    requires acc >= 0
    ensures var r := Drain(acc, calls, physTick);
      r.2 ==> r.1 - calls == acc / Dt && r.0 == acc % Dt
  {
    var r := Drain(acc, calls, physTick);
    if acc >= Dt && physTick(calls) {
      DrainCompleteSplitsSteps(acc - Dt, calls + 1, physTick);
      assert (acc - Dt) / Dt == acc / Dt - 1;
      assert (acc - Dt) % Dt == acc % Dt;
    }
  }

  /** One turn of the tick loop. */
  lemma DrainStep(acc: int, calls: nat, physTick: nat -> bool)
    requires acc >= Dt
    ensures physTick(calls) ==> Drain(acc, calls, physTick) == Drain(acc - Dt, calls + 1, physTick)
    ensures !physTick(calls) ==> Drain(acc, calls, physTick) == (acc, calls + 1, false)
  {
  }

  lemma StepKeepsWhole(t: int)
    requires t % Dt == 0
    ensures (t + Dt) % Dt == 0
  {
  }

  /** The total clamped frame time of a run of clock readings, starting from the reading `prev`. */
  function Elapsed(prev: int, readings: seq<int>, limit: int): int
    decreases |readings|
  {
    if readings == [] then 0 else Clamp(readings[0] - prev, limit) + Elapsed(readings[0], readings[1..], limit)
  }

  lemma {:induction false} ElapsedAppend(prev: int, readings: seq<int>, next: int, limit: int)
    decreases |readings|
    ensures Elapsed(prev, readings + [next], limit) ==
      Elapsed(prev, readings, limit) + Clamp(next - (if readings == [] then prev else readings[|readings| - 1]), limit)
  {
    if readings != [] {
      assert (readings + [next])[1..] == readings[1..] + [next];
      ElapsedAppend(readings[0], readings[1..], next, limit);
    }
  }

  /** The clamp bounds each frame, so a run of `n` frames simulates at most `n` frame limits. */
  lemma {:induction false} ElapsedBounded(prev: int, readings: seq<int>, limit: int)
    decreases |readings|
    ensures Elapsed(prev, readings, limit) <= |readings| * limit
  {
    if readings != [] {
      ElapsedBounded(readings[0], readings[1..], limit);
    }
  }

  class Time {
    /** The clock reading before the last frame. */
    var currentTime: int
    /** Elapsed time not simulated yet. */
    var accumulator: int
    /** Total simulated time. */
    var simTime: int

    /** Simulated time is a whole number of steps. */
    ghost predicate Valid()
      reads this
    {
      simTime >= 0 && simTime % Dt == 0
    }

    /** `Time()`: the clock's current reading, nothing accumulated, nothing simulated. */
    constructor (now: int)
      ensures Valid() && currentTime == now && accumulator == 0 && simTime == 0
    {
      currentTime := now;
      accumulator := 0;
      simTime := 0;
    }

    /** `SimTime`: the total simulated time, a whole number of steps. */
    function SimTime(): (t: int)
      reads this
      requires Valid()
      ensures t >= 0 && t % Dt == 0
    {
      simTime
    }

    /** `SimTimeMs`: the simulated time in milliseconds (a float in the source). */
    function SimTimeMs(): (ms: real)
      reads this
      requires Valid()
      ensures ms >= 0.0 && ms * Ms as real == SimTime() as real
    {
      simTime as real / Ms as real
    }

    /**
     * One iteration of `MainLoop`'s outer loop, given the clock reading.  It
     * returns the new physics call count, whether the loop goes on, and the
     * `alpha` passed to the render callback when it does.
     */
    method Frame(newTime: int, physTick: nat -> bool, calls: nat) returns (calls': nat, goOn: bool, alpha: real)
      requires Valid()
      modifies this
      ensures Valid()
      ensures currentTime == newTime
      ensures var r := Drain(old(accumulator) + Clamp(newTime - old(currentTime), FrameLimit), calls, physTick);
        accumulator == r.0 && calls' == r.1 && goOn == r.2
      ensures simTime + accumulator == old(simTime) + old(accumulator) + Clamp(newTime - old(currentTime), FrameLimit)
      ensures goOn ==> accumulator < Dt && alpha == accumulator as real / Dt as real
    {
      var frameTime := newTime - currentTime;
      if frameTime > FrameLimit {
        frameTime := FrameLimit;
      }
      currentTime := newTime;
      accumulator := accumulator + frameTime;
      calls', goOn := Ticks(physTick, calls);
      DrainSpec(old(accumulator) + Clamp(newTime - old(currentTime), FrameLimit), calls, physTick);
      alpha := if goOn then accumulator as real / Dt as real else 0.0;
    }

    /** `MainLoop`'s inner loop: physics ticks while the accumulator holds a step. */
    method Ticks(physTick: nat -> bool, calls: nat) returns (calls': nat, goOn: bool)
      requires Valid()
      modifies this
      ensures Valid() && currentTime == old(currentTime)
      ensures var r := Drain(old(accumulator), calls, physTick);
        accumulator == r.0 && calls' == r.1 && goOn == r.2
      ensures simTime + accumulator == old(simTime) + old(accumulator)
    {
      calls' := calls;
      while accumulator >= Dt
        invariant Drain(accumulator, calls', physTick) == Drain(old(accumulator), calls, physTick)
        invariant simTime + accumulator == old(simTime) + old(accumulator) && simTime >= 0 && simTime % Dt == 0
        invariant currentTime == old(currentTime)
        decreases accumulator
      {
        var ok := physTick(calls');
        DrainStep(accumulator, calls', physTick);
        calls' := calls' + 1;
        if !ok {
          return calls', false;
        }
        StepKeepsWhole(simTime);
        simTime := simTime + Dt;
        accumulator := accumulator - Dt;
      }
      goOn := true;
    }

    /**
     * `MainLoop`, over a finite run of clock readings: frames run until a
     * physics tick answers false or the readings are used up.  It returns
     * whether a tick stopped it, the frames begun, and the render `alpha`s.
     */
    method MainLoop(readings: seq<int>, physTick: nat -> bool) returns (stopped: bool, frames: nat, alphas: seq<real>)
      requires Valid()
      modifies this
      ensures Valid()
      ensures frames <= |readings| && (!stopped ==> frames == |readings|)
      ensures stopped ==> frames >= 1
      ensures |alphas| == (if stopped then frames - 1 else frames)
      ensures forall j :: 0 <= j < |alphas| ==> alphas[j] < 1.0
      ensures !stopped && frames > 0 ==> accumulator < Dt
      ensures currentTime == if frames == 0 then old(currentTime) else readings[frames - 1]
      ensures simTime + accumulator == old(simTime) + old(accumulator) + Elapsed(old(currentTime), readings[..frames], FrameLimit)
    {
      stopped, frames, alphas := false, 0, [];
      var calls: nat := 0;
      ghost var start := currentTime;
      ghost var total := simTime + accumulator;
      while frames < |readings|
        invariant Valid()
        invariant frames <= |readings| && |alphas| == frames
        invariant forall j :: 0 <= j < |alphas| ==> alphas[j] < 1.0
        invariant frames > 0 ==> accumulator < Dt
        invariant currentTime == if frames == 0 then start else readings[frames - 1]
        invariant simTime + accumulator == total + Elapsed(start, readings[..frames], FrameLimit)
      {
        var goOn, alpha;
        ElapsedAppend(start, readings[..frames], readings[frames], FrameLimit);
        assert readings[..frames + 1] == readings[..frames] + [readings[frames]];
        calls, goOn, alpha := Frame(readings[frames], physTick, calls);
        frames := frames + 1;
        if !goOn {
          stopped := true;
          return;
        }
        alphas := alphas + [alpha];
      }
    }
  }
}
