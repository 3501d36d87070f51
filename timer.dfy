/** The StopWatch of include/timer.h: a flag saying whether it runs, the
    milliseconds waited so far and a target duration. */
module Timer {

  /** finished(): running and the target reached. */
  predicate FinishedOf(started: bool, waited: nat, target: nat): (b: bool)
    ensures b ==> started
    ensures started && target == 0 ==> b
  {
    started && waited >= target
  }

  /** ratio_consumed(): 0 while stopped; otherwise the fraction of the target
      waited, capped at 1. A zero target gives 1, as the float division by
      zero followed by std::min(1, ...) does. */
  function RatioOf(started: bool, waited: nat, target: nat): (r: real)
    ensures 0.0 <= r <= 1.0
    ensures !started ==> r == 0.0
  {
    if !started then 0.0
    else if target == 0 then 1.0
    else if waited as real / target as real < 1.0 then waited as real / target as real
    else 1.0
  }

  /** A running watch has ratio 1 exactly when it is finished. */
  lemma RatioOneIffFinished(started: bool, waited: nat, target: nat)
    requires started
    ensures RatioOf(started, waited, target) == 1.0 <==> FinishedOf(started, waited, target)
  {
    if target > 0 {
      if waited < target {
        assert waited as real < target as real;
        assert waited as real / target as real < 1.0;
      } else {
        assert waited as real >= target as real;
      }
    }
  }

  /** Waiting longer never lowers the ratio. */
  lemma RatioMonotone(started: bool, waited: nat, dt: nat, target: nat)
    ensures RatioOf(started, waited, target) <= RatioOf(started, waited + dt, target)
  {
    if started && target > 0 {
      assert waited as real / target as real <= (waited + dt) as real / target as real;
    }
  }

  class StopWatch {
    var started: bool
    var durationWaited: nat
    var target: nat

    /** StopWatch(target): stopped, nothing waited. */
    constructor (target: nat)
      ensures !started && durationWaited == 0 && this.target == target
    {
      started := false;
      durationWaited := 0;
      this.target := target;
    }

    method SetDuration(t: nat)
      modifies this
      ensures target == t
      ensures started == old(started) && durationWaited == old(durationWaited)
    {
      target := t;
    }

    function Duration(): nat
      reads this
    {
      target
    }

    function DurationWaited(): nat
      reads this
    {
      durationWaited
    }

    method Start()
      modifies this
      ensures started && durationWaited == old(durationWaited) && target == old(target)
    {
      started := true;
    }

    method Stop()
      modifies this
      ensures !started && durationWaited == old(durationWaited) && target == old(target)
    {
      started := false;
    }

    function Started(): bool
      reads this
    {
      started
    }

    /** reset: back to nothing waited, stopped. */
    method Reset()
      modifies this
      ensures !started && durationWaited == 0 && target == old(target)
    {
      durationWaited := 0;
      Stop();
    }

    method StartOrReset(b: bool)
      modifies this
      ensures b ==> started && durationWaited == old(durationWaited)
      ensures !b ==> !started && durationWaited == 0
      ensures target == old(target)
    {
      if b {
        Start();
      } else {
        Reset();
      }
    }

    /** consume: time only counts while the watch runs. */
    method Consume(dt: nat)
      modifies this
      ensures durationWaited == if old(started) then old(durationWaited) + dt else old(durationWaited)
      ensures started == old(started) && target == old(target)
      ensures Ratio() >= old(Ratio())
    {
      if started {
        RatioMonotone(started, durationWaited, dt, target);
        durationWaited := durationWaited + dt;
      }
    }

    function Finished(): (b: bool)
      reads this
      ensures b <==> started && Ratio() == 1.0
    {
      if started then
        RatioOneIffFinished(started, durationWaited, target);
        FinishedOf(started, durationWaited, target)
      else
        false
    }

    function Ratio(): (r: real)
      reads this
      ensures 0.0 <= r <= 1.0
      ensures !started ==> r == 0.0
    {
      RatioOf(started, durationWaited, target)
    }
  }
}
