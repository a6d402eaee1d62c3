// The readings of the tick counter that a history of the calendar was made with.

module ClockBook {
  import opened TimerElements
  import opened Calendar
  import opened VirtualClock

  predicate IsReading(e: Event) {
    e.Sample? || e.StartRun?
  }

  /** The ticks that the readings of a history added to the clock, one after another. */
  function Ticks(log: seq<Event>): seq<nat> {
    if log == [] then []
    else
      var n := |log| - 1;
      Ticks(log[..n]) + if IsReading(log[n]) then [log[n].passed] else []
  }

  /** They are those that the given readings add, at the speeds at which each of them was taken. */
  predicate Booked(log: seq<Event>, readings: seq<u32>, speeds: seq<u32>) {
    && |readings| == |speeds| + 1 && |Ticks(log)| == |speeds|
    && forall i :: 0 <= i < |speeds| ==> Ticks(log)[i] == Passed(readings[i], readings[i + 1], speeds[i])
  }

  lemma TicksExtend(log: seq<Event>, e: Event)
    ensures Ticks(log + [e]) == Ticks(log) + if IsReading(e) then [e.passed] else []
  {
    assert (log + [e])[..|log|] == log;
  }

  lemma BookNothing(r: Run, e: Event, readings: seq<u32>, speeds: seq<u32>)
    requires |r.states| > 0 && Booked(r.log, readings, speeds) && !IsReading(e)
    ensures Booked(Extend(r, e).log, readings, speeds)
  {
    TicksExtend(r.log, e);
  }

  lemma BookReading(r: Run, e: Event, readings: seq<u32>, speeds: seq<u32>, now: u32, speed: u32)
    requires |r.states| > 0 && Booked(r.log, readings, speeds) && IsReading(e)
    requires e.passed == Passed(readings[|readings| - 1], now, speed)
    ensures Booked(Extend(r, e).log, readings + [now], speeds + [speed])
  {
    hide Passed;
    TicksExtend(r.log, e);
  }

  /** No other event moves the clock. */
  lemma BootMoves(c: State, e: Event)
    requires Enabled(c, e)
    ensures Step(c, e).boot == c.boot + if IsReading(e) then e.passed else 0
  {
  }

  lemma TicksAt(log: seq<Event>, n: nat)
    requires n < |log|
    ensures Ticks(log[..n + 1]) == Ticks(log[..n]) + if IsReading(log[n]) then [log[n].passed] else []
  {
    assert log[..n + 1] == log[..n] + [log[n]];
    TicksExtend(log[..n], log[n]);
  }

  lemma {:induction false} TicksBegin(log: seq<Event>, n: nat)
    requires n <= |log|
    ensures Ticks(log[..n]) <= Ticks(log)
    decreases |log| - n
  {
    if n < |log| {
      TicksAt(log, n);
      TicksBegin(log, n + 1);
    } else {
      assert log[..n] == log;
    }
  }

  /** In every history the clock shows what the readings up to then come to. */
  lemma {:induction false} BootIsTotal(r: Run, ms: seq<nat>, readings: seq<u32>, speeds: seq<u32>, n: nat)
    requires IsRun(r) && n <= |r.log| && Booked(r.log, readings, speeds)
    requires |ms| == |readings| && forall i :: 0 <= i < |ms| ==> readings[i] == ms[i] % TWO32
    ensures var k := |Ticks(r.log[..n])|;
            k <= |speeds| && r.states[n].boot == r.states[0].boot + Total(ms[..k + 1], speeds[..k])
  {
    hide Ticks, Passed, Total, Step, Enabled;
    TicksBegin(r.log, n);
    var k := |Ticks(r.log[..n])|;
    if n == 0 {
      NoTicks(ms[..1]);
    } else {
      BootIsTotal(r, ms, readings, speeds, n - 1);
      TicksAt(r.log, n - 1);
      Transition(r, n - 1);
      BootMoves(r.states[n - 1], r.log[n - 1]);
      if IsReading(r.log[n - 1]) {
        assert Ticks(r.log)[k - 1] == r.log[n - 1].passed;
        TotalNext(ms, speeds, k);
      }
    }
  }

  lemma NoTicks(ms: seq<nat>)
    requires |ms| == 1
    ensures Ticks([]) == [] && Total(ms, []) == 0
  {
  }

  lemma TotalNext(ms: seq<nat>, speeds: seq<u32>, k: nat)
    requires |ms| == |speeds| + 1 && 0 < k <= |speeds|
    ensures Total(ms[..k + 1], speeds[..k]) ==
            Total(ms[..k], speeds[..k - 1]) + Passed(ms[k - 1] % TWO32, ms[k] % TWO32, speeds[k - 1])
  {
    hide Passed;
    assert ms[..k + 1][..k] == ms[..k] && speeds[..k][..k - 1] == speeds[..k - 1];
  }
}
