/** The gating skeleton of OnUpdate. Each simulation step first polls the
    socket; until the first reference has arrived it stops there. Once
    armed, it publishes the motor speeds, records the step time, and sends a
    HIL_GPS message when strictly more than the GPS period has passed since
    the last one. Times are simulation nanoseconds. */
module Gating {

  /** last_time_ and last_gps_time_. */
  datatype Gate = Gate(lastTime: nat, lastGpsTime: nat)

  /** What one OnUpdate does: the new gate, whether the motor speeds were
      published and whether a HIL_GPS message went out. */
  datatype Outcome = Outcome(gate: Gate, published: bool, gpsSent: bool)

  /** The GPS condition: strictly more than the period since the last GPS
      message. */
  predicate GpsDue(g: Gate, now: nat, period: nat)
  {
    now as int - g.lastGpsTime as int > period as int
  }

  /** One OnUpdate after the poll, with the armed flag as the poll left it. */
  function Step(g: Gate, armed: bool, now: nat, period: nat): (o: Outcome)
    ensures o.published <==> armed
    ensures o.gpsSent ==> o.published && o.gate.lastGpsTime == now
    ensures o.published ==> o.gate.lastTime == now
    ensures !o.published ==> o.gate == g
  {
    if !armed then Outcome(g, false, false)
    else if GpsDue(g, now, period) then Outcome(Gate(now, now), true, true)
    else Outcome(Gate(now, g.lastGpsTime), true, false)
  }

  /** Before the first reference nothing is published and no time is recorded. */
  lemma StepUnarmedInert(g: Gate, now: nat, period: nat)
    ensures Step(g, false, now, period) == Outcome(g, false, false)
  {
  }

  /** Once armed, every step publishes and records its time; it sends GPS
      exactly when more than the period has passed, and then restarts the
      GPS clock at the current time; otherwise the GPS clock is kept. */
  lemma StepArmed(g: Gate, now: nat, period: nat)
    ensures var o := Step(g, true, now, period);
      && o.published && o.gate.lastTime == now
      && (o.gpsSent <==> now as int - g.lastGpsTime as int > period as int)
      && (o.gpsSent ==> o.gate.lastGpsTime == now)
      && (!o.gpsSent ==> o.gate.lastGpsTime == g.lastGpsTime)
  {
  }

  /** The comparison is strict: exactly one period after the last GPS
      message no new one is sent; one nanosecond later it is. */
  lemma StepStrictAtPeriod(g: Gate, period: nat)
    ensures !Step(g, true, g.lastGpsTime + period, period).gpsSent
    ensures Step(g, true, g.lastGpsTime + period + 1, period).gpsSent
  {
  }

  /** An armed run over the step times: the final gate and the times at
      which HIL_GPS went out, in order. */
  datatype Run = Run(gate: Gate, gpsTimes: seq<nat>)

  function Steps(g: Gate, times: seq<nat>, period: nat): (r: Run)
    decreases |times|
  {
    if times == [] then Run(g, [])
    else
      var before := Steps(g, times[..|times| - 1], period);
      var o := Step(before.gate, true, times[|times| - 1], period);
      Run(o.gate, before.gpsTimes + if o.gpsSent then [times[|times| - 1]] else [])
  }

  /** GPS messages in a run are strictly more than one period apart, the
      first one more than a period after the starting GPS time, and the
      final GPS clock is the time of the last one sent. */
  lemma {:induction false} StepsSpacing(g: Gate, times: seq<nat>, period: nat)
    ensures var r := Steps(g, times, period);
      && (forall i :: 0 < i < |r.gpsTimes| ==> r.gpsTimes[i] as int - r.gpsTimes[i - 1] as int > period as int)
      && (|r.gpsTimes| > 0 ==> r.gpsTimes[0] as int - g.lastGpsTime as int > period as int)
      && r.gate.lastGpsTime == if |r.gpsTimes| > 0 then r.gpsTimes[|r.gpsTimes| - 1] else g.lastGpsTime
  {
    if times != [] {
      var before := Steps(g, times[..|times| - 1], period);
      StepsSpacing(g, times[..|times| - 1], period);
      var now := times[|times| - 1];
      var o := Step(before.gate, true, now, period);
      var r := Steps(g, times, period);
      if o.gpsSent {
        assert r.gpsTimes == before.gpsTimes + [now];
        assert forall i :: 0 <= i < |before.gpsTimes| ==> r.gpsTimes[i] == before.gpsTimes[i];
      } else {
        assert r.gpsTimes == before.gpsTimes;
      }
    }
  }

  /** After every armed step the GPS clock is at most one period behind the
      step time: no GPS gap longer than the period goes unnoticed. */
  lemma StepsWithinPeriod(g: Gate, times: seq<nat>, period: nat)
    requires times != []
    ensures var r := Steps(g, times, period);
      times[|times| - 1] as int - r.gate.lastGpsTime as int <= period as int
      && r.gate.lastTime == times[|times| - 1]
  {
  }
}
