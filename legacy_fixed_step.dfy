/**
 * The older `Time`: the same fixed-timestep loop without a simulated-time
 * total, and with the 250 ms clamp written as a literal.  `dt` is 30 ms, as
 * in the newer `Time`.
 */
module LegacyFixedStep {
  import opened FixedStep

  /** The literal clamp, `std::chrono::milliseconds(250)`. */
  const LiteralLimit: nat := 250 * Ms

  /** The literal clamp is the newer `frameLimit`, so both loops clamp alike. */
  lemma LiteralLimitIsFrameLimit()
    ensures LiteralLimit == FrameLimit
  {
  }

  class LegacyTime {
    var currentTime: int
    var accumulator: int

    constructor (now: int)
      ensures currentTime == now && accumulator == 0
    {
      currentTime := now;
      accumulator := 0;
    }

    /** One iteration of the older `MainLoop`: clamp, accumulate, tick, give the render `alpha`. */
    method Frame(newTime: int, physTick: nat -> bool, calls: nat) returns (calls': nat, goOn: bool, alpha: real)
      modifies this
      ensures currentTime == newTime
      ensures var r := Drain(old(accumulator) + Clamp(newTime - old(currentTime), LiteralLimit), calls, physTick);
        accumulator == r.0 && calls' == r.1 && goOn == r.2
      ensures goOn ==> accumulator < Dt && alpha == accumulator as real / Dt as real
    {
      var frameTime := newTime - currentTime;
      if frameTime > LiteralLimit {
        frameTime := LiteralLimit;
      }
      currentTime := newTime;
      accumulator := accumulator + frameTime;
      calls' := calls;
      while accumulator >= Dt
        invariant Drain(accumulator, calls', physTick) ==
          Drain(old(accumulator) + Clamp(newTime - old(currentTime), LiteralLimit), calls, physTick)
        invariant currentTime == newTime
        decreases accumulator
      {
        var ok := physTick(calls');
        DrainStep(accumulator, calls', physTick);
        calls' := calls' + 1;
        if !ok {
          return calls', false, 0.0;
        }
        accumulator := accumulator - Dt;
      }
      DrainSpec(old(accumulator) + Clamp(newTime - old(currentTime), LiteralLimit), calls, physTick);
      goOn := true;
      alpha := accumulator as real / Dt as real;
    }
  }
}
