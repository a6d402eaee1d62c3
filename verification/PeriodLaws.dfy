// When periodic timers fire: the two promises the bExact flag chooses between.

module PeriodLaws {
  import opened TimerElements
  import opened Wheel
  import opened Calendar
  import opened CalendarLaws

  /** The ticks of the callbacks of timer u among the first n events, in order. */
  function FireTicks(r: Run, n: nat, u: nat): seq<nat>
    requires n <= |r.log| < |r.states|
  {
    if n == 0 then []
    else FireTicks(r, n - 1, u) + if r.log[n - 1] == Fire(u) then [r.states[n - 1].tick] else []
  }

  /** Event i sets timer u, periodic, and in time for its first expiry. */
  ghost predicate SetsPeriodic(r: Run, i: nat, u: nat, exact: bool) {
    && IsRun(r) && i < |r.log|
    && r.log[i].Set? && r.log[i].exact == exact && !r.log[i].cron
    && u == r.states[i].issued
    && u in r.states[i + 1].timers
    && r.log[i].next == r.states[i + 1].timers[u].due % TWO64
  }

  /** The due tick event i gives to timer u. */
  function FirstDue(r: Run, i: nat, u: nat): nat
    requires i < |r.log| < |r.states| && u in r.states[i + 1].timers
  {
    r.states[i + 1].timers[u].due
  }

  lemma {:induction false} NotFiredBefore(r: Run, n: nat, u: nat)
    requires IsRun(r) && n <= |r.log| && u >= r.states[n].issued
    ensures FireTicks(r, n, u) == []
  {
    if n > 0 {
      Transition(r, n - 1);
      NotFiredBefore(r, n - 1, u);
    }
  }

  lemma {:induction false} FiresArePast(r: Run, n: nat, u: nat)
    requires IsRun(r) && n <= |r.log|
    ensures forall k :: 0 <= k < |FireTicks(r, n, u)| ==>
              FireTicks(r, n, u)[k] <= r.states[n].tick
              && (r.states[n].phase.Idle? ==> FireTicks(r, n, u)[k] < r.states[n].tick)
  {
    if n > 0 {
      Transition(r, n - 1);
      FiresArePast(r, n - 1, u);
    }
  }

  lemma SetBase(r: Run, i: nat, u: nat, exact: bool)
    requires SetsPeriodic(r, i, u, exact)
    ensures FireTicks(r, i + 1, u) == []
    ensures r.states[i + 1].phase != InCallback(u) && u < r.states[i + 1].issued
    ensures var t := r.states[i + 1].timers[u];
            t.next == t.due % TWO64 && t.period == r.log[i].period && t.exact == exact && !t.cron
  {
    Transition(r, i);
    NotFiredBefore(r, i, u);
  }

  lemma {:induction false} IssuedGrows(r: Run, i: nat, j: nat)
    requires IsRun(r) && i <= j <= |r.log|
    ensures r.states[i].issued <= r.states[j].issued && r.states[i].target <= r.states[j].target
    decreases j - i
  {
    if i < j {
      Transition(r, i);
      IssuedGrows(r, i + 1, j);
    }
  }

  // ----- exact timers catch up

  /** f, f + p, ..., n terms. */
  function Multiples(f: nat, p: nat, n: nat): seq<nat> {
    if n == 0 then [] else Multiples(f, p, n - 1) + [f + (n - 1) * p]
  }

  lemma {:induction false} MultiplesAt(f: nat, p: nat, n: nat)
    ensures |Multiples(f, p, n)| == n
    ensures forall k :: 0 <= k < n ==> Multiples(f, p, n)[k] == f + k * p
  {
    if n > 0 { MultiplesAt(f, p, n - 1); }
  }

  /** Timer t of an exact periodic chain that started at f, after n callbacks. */
  ghost predicate OnChain(t: Timer, inCallback: bool, f: nat, p: nat, n: nat) {
    && t.exact && !t.cron && t.period == p && t.next == t.due % TWO64
    && (inCallback ==> n >= 1)
    && t.due == f + (if inCallback then n - 1 else n) * p
  }

  lemma ChainStep(c: State, e: Event, u: nat, f: nat, p: nat, n: nat)
    requires Inv(c) && Enabled(c, e) && u < c.issued && Owned(c, u) && Owned(Step(c, e), u)
    requires 1 <= p < TWO63 && OnChain(c.timers[u], c.phase == InCallback(u), f, p, n)
    ensures var d := Step(c, e);
            OnChain(d.timers[u], d.phase == InCallback(u), f, p, if e == Fire(u) then n + 1 else n)
    ensures e == Fire(u) ==> c.tick == f + n * p
  {
    hide DueTick, Rescheduled;
    if e.Return? && c.phase == InCallback(u) {
      ExactIsOnTime(c.tick, c.timers[u], c.target, e.delay);
      assert (n - 1) * p + p == n * p;
    }
  }

  lemma {:induction false} ExactProgress(r: Run, i: nat, u: nat, m: nat)
    requires SetsPeriodic(r, i, u, true) && 1 <= r.log[i].period < TWO63
    requires i < m <= |r.log| && Owned(r.states[m], u)
    ensures var f, p, n := FirstDue(r, i, u), r.log[i].period, |FireTicks(r, m, u)|;
            && FireTicks(r, m, u) == Multiples(f, p, n)
            && OnChain(r.states[m].timers[u], r.states[m].phase == InCallback(u), f, p, n)
  {
    hide Step, Enabled, Inv;
    SetBase(r, i, u, true);
    if m > i + 1 {
      var c, e := r.states[m - 1], r.log[m - 1];
      Transition(r, m - 1);
      IssuedGrows(r, i + 1, m - 1);
      OwnedBefore(c, e, u);
      ExactProgress(r, i, u, m - 1);
      ChainStep(c, e, u, FirstDue(r, i, u), r.log[i].period, |FireTicks(r, m - 1, u)|);
    }
  }

  lemma AtLeast(f: nat, p: nat, n: nat, k: nat)
    requires n <= k
    ensures f + k * p >= f + n * p
  {
    assert k * p == n * p + (k - n) * p;
    assert (k - n) * p >= 0;
  }

  /**
   * Between ticks, an un-killed exact timer with period p and first expiry f has fired exactly at those
   * of f, f + p, f + 2p, ... that lie before the current tick, however irregular the Run calls were.
   */
  lemma ExactFires(r: Run, i: nat, u: nat, m: nat)
    requires SetsPeriodic(r, i, u, true) && 1 <= r.log[i].period < TWO63
    requires i < m <= |r.log| && Owned(r.states[m], u) && r.states[m].phase.Idle?
    ensures var ticks := FireTicks(r, m, u);
            var f := FirstDue(r, i, u);
            && (forall k :: 0 <= k < |ticks| ==> ticks[k] == f + k * r.log[i].period)
            && (forall k: nat :: f + k * r.log[i].period < r.states[m].tick <==> k < |ticks|)
  {
    var f, p, n := FirstDue(r, i, u), r.log[i].period, |FireTicks(r, m, u)|;
    ExactProgress(r, i, u, m);
    MultiplesAt(f, p, n);
    FiresArePast(r, m, u);
    ReachableInv(r, m);
    forall k: nat
      ensures f + k * p < r.states[m].tick <==> k < n
    {
      if k < n {
        assert FireTicks(r, m, u)[k] == f + k * p;
      } else {
        AtLeast(f, p, n, k);
      }
    }
  }

  // ----- other timers skip what they missed

  /** Timer t of a non-exact periodic chain whose callbacks so far came at the given ticks. */
  ghost predicate OnSchedule(t: Timer, inCallback: bool, p: nat, ticks: seq<nat>) {
    var n := |ticks|;
    && !t.exact && !t.cron && t.period == p && t.next == t.due % TWO64
    && (inCallback ==> n >= 1 && t.due == ticks[n - 1])
    && (!inCallback && n >= 1 ==> t.due >= ticks[n - 1] + p)
  }

  /** The callback of u ends, and u stays. */
  predicate ReturnsFrom(c: State, e: Event, u: nat) {
    e.Return? && c.phase == InCallback(u) && Owned(c, u)
  }

  /** Every callback of u among the events from a to b met the condition that keeps a timer of period p waiting. */
  ghost predicate KeptUp(r: Run, u: nat, p: u64, a: nat, b: nat)
    requires b <= |r.log| < |r.states|
  {
    forall k :: a <= k < b && ReturnsFrom(r.states[k], r.log[k], u) ==>
      KeepsUp(r.states[k].tick, p, r.states[k].target)
  }

  /** On an early clock they all do. */
  lemma EarlyClockKeepsUp(r: Run, u: nat, p: u64, a: nat, b: nat)
    requires IsRun(r) && b <= |r.log| && r.states[b].target + p < TWO63
    ensures KeptUp(r, u, p, a, b)
  {
    forall k | a <= k < b && ReturnsFrom(r.states[k], r.log[k], u)
      ensures KeepsUp(r.states[k].tick, p, r.states[k].target)
    {
      Transition(r, k);
      IssuedGrows(r, k, b);
      EarlyClock(r.states[k].tick, p, r.states[k].target);
    }
  }

  lemma ScheduleStep(c: State, e: Event, u: nat, p: nat, ticks: seq<nat>)
    requires Inv(c) && Enabled(c, e) && u < c.issued && Owned(c, u) && Owned(Step(c, e), u)
    requires OnSchedule(c.timers[u], c.phase == InCallback(u), p, ticks)
    requires ReturnsFrom(c, e, u) ==> KeepsUp(c.tick, p, c.target)
    ensures var d := Step(c, e);
            OnSchedule(d.timers[u], d.phase == InCallback(u), p, if e == Fire(u) then ticks + [c.tick] else ticks)
    ensures e == Fire(u) && ticks != [] ==> c.tick >= ticks[|ticks| - 1] + p
    ensures e.Return? && c.phase == InCallback(u) ==> Step(c, e).timers[u].due >= c.target
  {
    if e.Return? && c.phase == InCallback(u) {
      InexactIsOnTime(c.tick, c.timers[u], c.target, e.delay);
    }
  }

  /**
   * Consecutive callbacks of a non-exact timer are at least its period apart, and the timer waits at least as long
   * for the next one.
   */
  lemma {:induction false} InexactFires(r: Run, i: nat, u: nat, m: nat)
    requires SetsPeriodic(r, i, u, false)
    requires i < m <= |r.log| && Owned(r.states[m], u) && KeptUp(r, u, r.log[i].period, i, m)
    ensures var ticks := FireTicks(r, m, u);
            && OnSchedule(r.states[m].timers[u], r.states[m].phase == InCallback(u), r.log[i].period, ticks)
            && forall k :: 0 < k < |ticks| ==> ticks[k] >= ticks[k - 1] + r.log[i].period
  {
    hide Step, Enabled, Inv;
    SetBase(r, i, u, false);
    if m > i + 1 {
      var c, e := r.states[m - 1], r.log[m - 1];
      Transition(r, m - 1);
      IssuedGrows(r, i + 1, m - 1);
      OwnedBefore(c, e, u);
      InexactFires(r, i, u, m - 1);
      ScheduleStep(c, e, u, r.log[i].period, FireTicks(r, m - 1, u));
    }
  }

  /** Timer u, if still owned, is in its callback or waits at least for the next Run. */
  predicate Quiet(c: State, u: nat) {
    Owned(c, u) ==> c.phase == InCallback(u) || c.timers[u].due >= c.target
  }

  lemma QuietStep(c: State, e: Event, u: nat)
    requires Inv(c) && Enabled(c, e) && u < c.issued && Quiet(c, u) && !e.StartRun?
    requires Owned(Step(c, e), u) && e.Return? && c.phase == InCallback(u)
             ==> Step(c, e).timers[u].due >= c.target
    ensures Quiet(Step(c, e), u)
    ensures c.phase != InCallback(u) ==> e != Fire(u)
  {
  }

  lemma {:induction false} QuietUntilNextRun(r: Run, i: nat, a: nat, b: nat, u: nat)
    requires SetsPeriodic(r, i, u, false) && i < a < b <= |r.log|
    requires r.log[a] == Fire(u) && KeptUp(r, u, r.log[i].period, i, b)
    requires forall k :: a < k < b ==> !r.log[k].StartRun?
    ensures Quiet(r.states[b], u)
    decreases b
  {
    hide Enabled, Inv, OnSchedule, Rescheduled, DueTick, FireTicks;
    Transition(r, b - 1);
    var c, e := r.states[b - 1], r.log[b - 1];
    if a < b - 1 {
      IssuedGrows(r, i + 1, b - 1);
      SetBase(r, i, u, false);
      QuietUntilNextRun(r, i, a, b - 1, u);
      if Owned(Step(c, e), u) {
        OwnedBefore(c, e, u);
        InexactFires(r, i, u, b - 1);
        ScheduleStep(c, e, u, r.log[i].period, FireTicks(r, b - 1, u));
      }
      QuietStep(c, e, u);
    }
  }

  /** A non-exact timer, whatever its period, is called back at most once per Run. */
  lemma InexactOncePerRun(r: Run, i: nat, a: nat, b: nat, u: nat)
    requires SetsPeriodic(r, i, u, false) && i < a < b < |r.log|
    requires r.log[a] == Fire(u) && r.log[b] == Fire(u)
    requires KeptUp(r, u, r.log[i].period, i, b)
    ensures exists k :: a < k < b && r.log[k].StartRun?
  {
    if forall k :: a < k < b ==> !r.log[k].StartRun? {
      Transition(r, b);
      QuietUntilNextRun(r, i, a, b, u);
      assert false;
    }
  }
}
