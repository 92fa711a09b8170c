/** The accumulating timer that turns frame time into discrete events: the
    snake's move cadence and the game's "get ready" countdown. Time is in
    seconds. */
module Timers {

  /** The observable state of a timer: time accumulated since the last reset,
      the threshold, and the sticky alarm flag. */
  datatype Clock = Clock(time: real, duration: real, alarm: bool)

  /** One `update(delta)`: time grows by `delta`; the alarm goes up once the
      time exceeds the duration and is never lowered here. */
  function Tick(c: Clock, delta: real): (r: Clock)
    ensures r.time == c.time + delta && r.duration == c.duration
    ensures c.alarm ==> r.alarm
    ensures Consistent(r)
  {
    var t := c.time + delta;
    Clock(t, c.duration, c.alarm || t > c.duration)
  }

  /** Successive `update` calls, one per frame, with the given deltas. */
  function Run(c: Clock, deltas: seq<real>): Clock
    decreases |deltas|
  {
    if deltas == [] then c else Run(Tick(c, deltas[0]), deltas[1..])
  }

  function Sum(deltas: seq<real>): real {
    if deltas == [] then 0.0 else deltas[0] + Sum(deltas[1..])
  }

  predicate NonNegative(deltas: seq<real>) {
    forall i :: 0 <= i < |deltas| ==> deltas[i] >= 0.0
  }

  lemma {:induction false} SumNonNegative(deltas: seq<real>)
    requires NonNegative(deltas)
    ensures Sum(deltas) >= 0.0
  {
    if deltas != [] {
      assert NonNegative(deltas[1..]) by {
        assert forall i :: 0 <= i < |deltas| - 1 ==> deltas[1..][i] == deltas[i + 1];
      }
      SumNonNegative(deltas[1..]);
    }
  }

  /** Updates accumulate: after a run of frames the time has grown by exactly
      the sum of the deltas, and the duration is untouched. */
  lemma {:induction false} RunTime(c: Clock, deltas: seq<real>)
    ensures Run(c, deltas).time == c.time + Sum(deltas)
    ensures Run(c, deltas).duration == c.duration
    decreases |deltas|
  {
    if deltas != [] {
      RunTime(Tick(c, deltas[0]), deltas[1..]);
    }
  }

  /** The alarm is sticky: once up, no run of updates lowers it. */
  lemma {:induction false} AlarmSticky(c: Clock, deltas: seq<real>)
    requires c.alarm
    ensures Run(c, deltas).alarm
    decreases |deltas|
  {
    if deltas != [] {
      AlarmSticky(Tick(c, deltas[0]), deltas[1..]);
    }
  }

  /** The alarm is up whenever the time exceeds the duration; every `update`
      leaves a timer in this state. */
  predicate Consistent(c: Clock) {
    c.time > c.duration ==> c.alarm
  }

  /** From a consistent clock, with frame times that never run backwards, the
      alarm is up after a run exactly when it was already up or the
      accumulated time now exceeds the duration. */
  lemma {:induction false} RunAlarm(c: Clock, deltas: seq<real>)
    requires Consistent(c) && NonNegative(deltas)
    ensures Run(c, deltas).alarm <==> c.alarm || c.time + Sum(deltas) > c.duration
    decreases |deltas|
  {
    if deltas != [] {
      var rest := deltas[1..];
      assert NonNegative(rest) by {
        assert forall i :: 0 <= i < |rest| ==> rest[i] == deltas[i + 1];
      }
      RunAlarm(Tick(c, deltas[0]), rest);
      SumNonNegative(rest);
      assert Run(c, deltas) == Run(Tick(c, deltas[0]), rest);
      assert Sum(deltas) == deltas[0] + Sum(rest);
    }
  }

  /** A timer object; its owner updates it every frame and resets it when it
      acts on the alarm. */
  class Timer {
    var time: real
    const duration: real
    var alarm: bool

    function Value(): Clock
      reads this
    {
      Clock(time, duration, alarm)
    }

    constructor (duration: real)
      ensures this.duration == duration
      ensures time == 0.0 && !alarm
    {
      this.duration := duration;
      time := 0.0;
      alarm := false;
    }

    method Update(delta: real)
      modifies this
      ensures time == old(time) + delta
      ensures alarm <==> old(alarm) || time > duration
      ensures Value() == Tick(old(Value()), delta)
      ensures Consistent(Value())
    {
      time := time + delta;
      if time > duration {
        alarm := true;
      }
    }

    method Reset()
      modifies this
      ensures time == 0.0 && !alarm
    {
      time := 0.0;
      alarm := false;
    }
  }
}
