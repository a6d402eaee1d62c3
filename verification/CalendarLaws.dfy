// What every run of the flat calendar guarantees its timers.

module CalendarLaws {
  import opened TimerElements
  import opened Wheel
  import opened Calendar

  // ----- which ticks requested times turn into

  /** SetTimer at boot time `boot` is on time exactly when the expiry is less than 2^63 ticks ahead. */
  lemma SetIsOnTime(c: State, first: nat)
    requires Inv(c) && !c.phase.Dispatching?
    ensures DueTick(c.tick, !c.phase.Idle?, (c.boot + first) % TWO64) == c.boot + first
            <==> c.boot + first - c.tick < TWO63
  {
    var due := c.boot + first;
    if due - c.tick < TWO63 {
      CascadeKeepsDue(c.tick, due);
    }
  }

  /** After an exact timer fires on time, its next expiry is on time exactly when its period is in 1 .. 2^63 - 1. */
  lemma ExactIsOnTime(tick: nat, t: Timer, target: nat, delay: int)
    requires t.exact && !t.cron && t.next == tick % TWO64
    ensures DueTick(tick, true, Rescheduled(t, target, delay)) == tick + t.period
            && Rescheduled(t, target, delay) == (tick + t.period) % TWO64
            <==> 1 <= t.period < TWO63
  {
    var due := tick + t.period;
    assert (t.next + t.period) % TWO64 == due % TWO64 by { AddResidue(tick, t.period); }
    if 1 <= t.period < TWO63 {
      CascadeKeepsDue(tick, due);
    } else if t.period == 0 {
      CascadeKeepsDue(tick, due);
    } else {
      AheadOfTick(due % TWO64, tick);
      AheadResidue(tick, t.period);
    }
  }

  lemma AddResidue(x: nat, y: nat)
    ensures (x % TWO64 + y) % TWO64 == (x + y) % TWO64
  {
  }

  lemma AheadResidue(tick: nat, p: u64)
    ensures Ahead((tick + p) % TWO64, tick) == p
  {
    ModShift(p, (tick + p) / TWO64);
    assert tick + p == TWO64 * ((tick + p) / TWO64) + (tick + p) % TWO64;
  }

  /** The timer waits at least its period and past the Run in progress, on a tick that fits its expiry. */
  predicate Waits(tick: nat, t: Timer, target: nat, next: u64) {
    var due := DueTick(tick, true, next);
    next == due % TWO64 && due >= tick + t.period && due >= target
  }

  /** The branch Run takes, on wrapped 64-bit times, leaves a timer of this period a time to come. */
  predicate KeepsUp(tick: nat, period: u64, target: nat) {
    if target % TWO64 >= (tick + period) % TWO64 then target + period - tick < TWO63
    else 1 <= period < TWO63 && target <= tick + period
  }

  /** A non-exact timer that fired on time waits as it should if and only if that branch lets it. */
  lemma InexactIsOnTime(tick: nat, t: Timer, target: nat, delay: int)
    requires !t.exact && !t.cron && t.next == tick % TWO64 && tick < target
    ensures Waits(tick, t, target, Rescheduled(t, target, delay)) <==> KeepsUp(tick, t.period, target)
  {
    hide DueTick;
    AddResidue(tick, t.period);
    AddResidue(target, t.period);
    if target % TWO64 >= (tick + t.period) % TWO64 {
      WaitFor(tick, target + t.period, if target < tick + t.period then tick + t.period else target);
    } else {
      WaitFor(tick, tick + t.period, tick + t.period);
    }
  }

  /** Expiry x, added while an earlier tick is dispatched, is on time exactly if it is less than 2^63 ahead. */
  lemma WaitFor(tick: nat, x: nat, lo: nat)
    requires tick <= x && x - TWO64 < lo <= x
    ensures var due := DueTick(tick, true, x % TWO64);
            && (due % TWO64 == x % TWO64 && due >= lo <==> tick < x < tick + TWO63)
            && (tick < x < tick + TWO63 ==> due == x)
  {
    var due := DueTick(tick, true, x % TWO64);
    AheadOfTick(x % TWO64, tick);
    if x < tick + TWO63 {
      CascadeKeepsDue(tick, x);
    } else if due % TWO64 == x % TWO64 {
      SameResidue(due, x);
    }
  }

  /** A cron timer whose engine answers a wait of delay seconds is next due that long after the current time. */
  lemma CronIsOnTime(tick: nat, t: Timer, target: nat, delay: nat)
    requires t.cron && tick < target
    ensures DueTick(tick, true, Rescheduled(t, target, delay)) == target + 1000 * delay
            <==> target + 1000 * delay - tick < TWO63
  {
    hide DueTick;
    var due := target + 1000 * delay;
    AddResidue(target, 1000 * delay);
    WaitFor(tick, due, due);
    NoFurther(tick, true, due % TWO64);
  }

  lemma NoFurther(tick: nat, dispatching: bool, next: u64)
    ensures DueTick(tick, dispatching, next) < tick + TWO63
  {
  }

  lemma SameResidue(a: int, b: int)
    requires a % TWO64 == b % TWO64 && a < b
    ensures a <= b - TWO64
  {
  }

  /** As long as the current time and the period add up to less than 2^63 there is no wrap-around to fear. */
  lemma EarlyClock(tick: nat, period: u64, target: nat)
    requires tick < target && target + period < TWO63
    ensures KeepsUp(tick, period, target)
  {
    Remainder(target, TWO64);
    Remainder(tick + period, TWO64);
  }

  /** Across the wrap-around of the clock a timer that lies behind can fire again within the same Run. */
  lemma InexactAcrossWrap(t: Timer, delay: int)
    requires !t.exact && !t.cron && t.period == 3 && t.next == TWO64 - 10
    ensures !Waits(TWO64 - 10, t, TWO64 + 5, Rescheduled(t, TWO64 + 5, delay))
  {
    InexactIsOnTime(TWO64 - 10, t, TWO64 + 5, delay);
  }

  // ----- delivery

  /** Event e takes timer u off the calendar at its due tick, by a callback or because it was killed. */
  predicate Handles(e: Event, u: nat) {
    e == Fire(u) || e == Drop(u)
  }

  lemma UndisturbedStep(c: State, e: Event, u: nat)
    requires Inv(c) && Enabled(c, e) && u in c.timers && c.phase != InCallback(u) && !Handles(e, u)
    ensures var d := Step(c, e);
            u in d.timers && d.timers[u] == c.timers[u] && d.phase != InCallback(u)
  {
  }

  /** A timer leaves its due tick only by being handled at that tick: none is lost, late or early. */
  lemma {:induction false} Delivered(r: Run, i: nat, j: nat, u: nat)
    requires IsRun(r) && i <= j <= |r.log|
    requires u in r.states[i].timers && r.states[i].phase != InCallback(u)
    ensures (&& u in r.states[j].timers && r.states[j].timers[u] == r.states[i].timers[u]
             && r.states[j].phase != InCallback(u))
            || exists k :: i <= k < j && Handles(r.log[k], u)
                           && r.states[k].tick == r.states[i].timers[u].due
    decreases j - i
  {
    if i < j {
      Transition(r, i);
      if !Handles(r.log[i], u) {
        UndisturbedStep(r.states[i], r.log[i], u);
        Delivered(r, i + 1, j, u);
      }
    }
  }

  lemma HandledStep(c: State, e: Event, u: nat, tick: nat)
    requires Inv(c) && Enabled(c, e) && tick <= c.tick && u < c.issued
    requires c.phase == InCallback(u) || u !in c.timers || c.timers[u].due > tick
    requires c.phase == InCallback(u) ==> c.tick == tick
    ensures var d := Step(c, e);
            && tick <= d.tick && u < d.issued
            && (d.phase == InCallback(u) || u !in d.timers || d.timers[u].due > tick)
            && (d.phase == InCallback(u) ==> d.tick == tick || e == Fire(u))
  {
    if e.Return? {
      var t := c.timers[c.phase.uid];
      AddPlaces(c.tick, true, Rescheduled(t, c.target, e.delay));
    }
  }

  /** Between being handled at one tick and the next time, the timer's due tick has moved past the first. */
  lemma {:induction false} AfterHandling(r: Run, i: nat, j: nat, u: nat)
    requires IsRun(r) && i < j <= |r.log| && Handles(r.log[i], u)
    requires forall k :: i < k < j ==> !Handles(r.log[k], u)
    ensures var c, d := r.states[i], r.states[j];
            && c.tick <= d.tick && u < d.issued
            && (d.phase == InCallback(u) || u !in d.timers || d.timers[u].due > c.tick)
            && (d.phase == InCallback(u) ==> d.tick == c.tick)
    decreases j
  {
    Transition(r, j - 1);
    Transition(r, i);
    if i < j - 1 {
      AfterHandling(r, i, j - 1, u);
      HandledStep(r.states[j - 1], r.log[j - 1], u, r.states[i].tick);
    }
  }

  /** Two callbacks of one timer are at different ticks, in increasing order: none is duplicated. */
  lemma {:induction false} NoDuplicate(r: Run, i: nat, j: nat, u: nat)
    requires IsRun(r) && i < j < |r.log| && Handles(r.log[i], u) && Handles(r.log[j], u)
    ensures r.log[i] == Fire(u) && r.states[i].tick < r.states[j].tick
    decreases j - i
  {
    if k :| i < k < j && Handles(r.log[k], u) {
      NoDuplicate(r, i, k, u);
      NoDuplicate(r, k, j, u);
    } else {
      AfterHandling(r, i, j, u);
      Transition(r, j);
      Transition(r, i);
      if r.log[i] == Drop(u) {
        Gone(r, i + 1, j, u);
        assert false;
      }
    }
  }

  /** A released incarnation never comes back. */
  lemma {:induction false} Gone(r: Run, i: nat, j: nat, u: nat)
    requires IsRun(r) && i <= j <= |r.log|
    requires u < r.states[i].issued && u !in r.states[i].timers
    ensures u < r.states[j].issued && u !in r.states[j].timers
    decreases j - i
  {
    if i < j {
      Transition(r, i);
      Gone(r, i + 1, j, u);
    }
  }

  // ----- the callbacks of one tick

  lemma InTickStep(c: State, e: Event, u: nat)
    requires Inv(c) && Enabled(c, e) && !c.phase.Idle? && e != EndTick
    ensures !Step(c, e).phase.Idle? && Step(c, e).tick == c.tick
    ensures u in Step(c, e).timers && Step(c, e).timers[u].due == c.tick
            ==> u in c.timers && c.timers[u].due == c.tick
  {
    if e.Return? {
      AddPlaces(c.tick, true, Rescheduled(c.timers[c.phase.uid], c.target, e.delay));
    } else if e.Set? {
      AddPlaces(c.tick, true, e.next);
    }
  }

  ghost predicate OneTick(r: Run, a: nat, b: nat) {
    && IsRun(r) && a < b < |r.log|
    && r.log[a] == BeginTick && r.log[b] == EndTick
    && forall k :: a < k < b ==> r.log[k] != EndTick
  }

  lemma {:induction false} WithinTick(r: Run, a: nat, b: nat, k: nat, u: nat)
    requires OneTick(r, a, b) && a < k <= b
    ensures !r.states[k].phase.Idle? && r.states[k].tick == r.states[a].tick
    ensures u in r.states[k].timers && r.states[k].timers[u].due == r.states[k].tick
            ==> u in r.states[a].timers && r.states[a].timers[u].due == r.states[a].tick
    decreases k
  {
    Transition(r, k - 1);
    if a < k - 1 {
      WithinTick(r, a, b, k - 1, u);
      InTickStep(r.states[k - 1], r.log[k - 1], u);
    }
  }

  /**
   * Between the start and the end of tick t exactly the timers due at t at its start are handled, each
   * once: called back if its node still owns it when it is reached, dropped if not.
   */
  lemma TickIsExact(r: Run, a: nat, b: nat, u: nat)
    requires OneTick(r, a, b)
    ensures (exists k :: a < k < b && Handles(r.log[k], u))
            <==> u in r.states[a].timers && r.states[a].timers[u].due == r.states[a].tick
    ensures forall k :: a < k < b && Handles(r.log[k], u) ==>
              (r.log[k] == Fire(u) <==> Owned(r.states[k], u))
    ensures forall k, l :: a < k < b && a < l < b && Handles(r.log[k], u) && Handles(r.log[l], u) ==> k == l
  {
    forall k | a < k < b && Handles(r.log[k], u)
      ensures u in r.states[a].timers && r.states[a].timers[u].due == r.states[a].tick
      ensures r.log[k] == Fire(u) <==> Owned(r.states[k], u)
    {
      Transition(r, k);
      WithinTick(r, a, b, k, u);
    }
    forall k, l | a < k < b && a < l < b && Handles(r.log[k], u) && Handles(r.log[l], u)
      ensures k == l
    {
      WithinTick(r, a, b, k, u);
      WithinTick(r, a, b, l, u);
      if k < l { NoDuplicate(r, k, l, u); }
      if l < k { NoDuplicate(r, l, k, u); }
    }
    var t := r.states[a].tick;
    if u in r.states[a].timers && r.states[a].timers[u].due == t {
      Transition(r, a);
      Transition(r, b);
      WithinTick(r, a, b, b, u);
      Delivered(r, a, b, u);
      var k :| a <= k < b && Handles(r.log[k], u);
      assert a < k;
    }
  }

  // ----- kills

  lemma OwnedBefore(c: State, e: Event, u: nat)
    requires Inv(c) && Enabled(c, e) && u < c.issued && Owned(Step(c, e), u)
    ensures Owned(c, u)
    ensures Step(c, e).timers[u].(next := 0, due := 0) == c.timers[u].(next := 0, due := 0)
  {
  }

  /** Once its node no longer owns it, a timer gets no further callback. */
  lemma {:induction false} NeverAgain(r: Run, i: nat, j: nat, u: nat)
    requires IsRun(r) && i <= j < |r.log|
    requires u < r.states[i].issued && !Owned(r.states[i], u)
    ensures r.log[j] != Fire(u)
    decreases j - i
  {
    Transition(r, i);
    if i < j {
      if Owned(r.states[i + 1], u) {
        OwnedBefore(r.states[i], r.log[i], u);
      }
      NeverAgain(r, i + 1, j, u);
    }
  }

  /** Event e ends the timer t: it is killed, replaced under its id, or its node is cleared or destroyed. */
  predicate Ends(e: Event, t: Timer) {
    match e
    case Set(n, id, _, _, _, _) => n == t.node && id == t.id
    case Kill(n, id) => n == t.node && id == t.id
    case KillAll(n) => n == t.node
    case Destroy(n) => n == t.node
    case _ => false
  }

  /** Its node stops owning a timer by these events and no others. */
  lemma EndsExactly(c: State, e: Event, u: nat)
    requires Inv(c) && Enabled(c, e) && Owned(c, u)
    ensures Ends(e, c.timers[u]) <==> !Owned(Step(c, e), u)
  {
  }

  /** KillTimer, SetTimer on the same id, and the node's destructor each silence the timer for good. */
  lemma KillSafety(r: Run, i: nat, j: nat, u: nat)
    requires IsRun(r) && i < j < |r.log|
    requires u in r.states[i].timers && Ends(r.log[i], r.states[i].timers[u])
    ensures r.log[j] != Fire(u)
  {
    Transition(r, i);
    NeverAgain(r, i + 1, j, u);
  }

  /** A cron timer that is still owned when its callback returns is next due delay seconds after m_qwCurTime. */
  lemma CronComesBack(r: Run, i: nat, delay: nat, u: nat)
    requires IsRun(r) && i < |r.log| && r.log[i] == Return(delay) && r.states[i].phase == InCallback(u)
    requires Owned(r.states[i], u) && r.states[i].timers[u].cron
    ensures var c, d := r.states[i], r.states[i + 1];
            && Owned(d, u) && d.timers[u].cron && d.timers[u].node == c.timers[u].node
            && d.timers[u].id == c.timers[u].id
            && (d.timers[u].due == c.target + 1000 * delay <==> c.target + 1000 * delay - c.tick < TWO63)
  {
    hide Rescheduled, DueTick;
    Transition(r, i);
    CronIsOnTime(r.states[i].tick, r.states[i].timers[u], r.states[i].target, delay);
  }

  lemma {:induction false} StaysDead(r: Run, i: nat, j: nat, n: nat)
    requires IsRun(r) && i <= j <= |r.log| && n in r.states[i].dead
    ensures n in r.states[j].dead
    decreases j - i
  {
    if i < j {
      Transition(r, i);
      StaysDead(r, i + 1, j, n);
    }
  }

  /** No callback is ever made on a destroyed node. */
  lemma NoCallbackOnDeadNode(r: Run, i: nat, j: nat, n: nat)
    requires IsRun(r) && i < j < |r.log| && r.log[i] == Destroy(n) && r.log[j].Fire?
    ensures r.log[j].uid in r.states[j].timers && r.states[j].timers[r.log[j].uid].node != n
  {
    Transition(r, i);
    StaysDead(r, i + 1, j, n);
    Transition(r, j);
  }

  // ----- conservation

  predicate ReleasesAt(c: State, e: Event, u: nat) {
    e == Drop(u) || (e.Return? && c.phase == InCallback(u) && !Owned(c, u))
  }

  /** How often timer u is released by the first n events. */
  function Releases(r: Run, n: nat, u: nat): nat
    requires n <= |r.log| < |r.states|
  {
    if n == 0 then 0
    else Releases(r, n - 1, u) + if ReleasesAt(r.states[n - 1], r.log[n - 1], u) then 1 else 0
  }

  /** Every incarnation ever issued is either pending or has been released, exactly once. */
  lemma {:induction false} Conservation(r: Run, n: nat, u: nat)
    requires IsRun(r) && n <= |r.log|
    ensures Releases(r, n, u) == if u < r.states[n].issued && u !in r.states[n].timers then 1 else 0
  {
    if n > 0 {
      Conservation(r, n - 1, u);
      Transition(r, n - 1);
    }
  }
}
