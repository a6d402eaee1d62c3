// What single events do to the calendar and to the ledger together.

module StepFacts {
  import opened TimerElements
  import opened Wheel
  import opened Calendar
  import opened CalendarLaws
  import opened TimerLedger

  lemma StartRunFacts(c: State, l: Ledger, passed: nat)
    requires Consistent(c, l) && c.phase.Idle?
    ensures Enabled(c, StartRun(passed))
    ensures Step(c, StartRun(passed)) == c.(boot := c.boot + passed, target := c.boot + passed)
    ensures Consistent(Step(c, StartRun(passed)), l)
    ensures (c.boot % TWO64 + passed) % TWO64 == (c.boot + passed) % TWO64
  {
    hide Consistent;
    QuietEventKeeps(c, l, StartRun(passed));
    AddResidue(c.boot, passed);
  }

  lemma BeginTickFacts(c: State, l: Ledger)
    requires Consistent(c, l) && c.phase.Idle? && c.tick % TWO64 != c.target % TWO64
    ensures Enabled(c, BeginTick) && Step(c, BeginTick) == c.(phase := Dispatching)
    ensures Consistent(Step(c, BeginTick), l)
  {
    hide Consistent;
    QuietEventKeeps(c, l, BeginTick);
  }

  lemma EndTickFacts(c: State, l: Ledger)
    requires Consistent(c, l) && Enabled(c, EndTick)
    ensures Step(c, EndTick) == c.(phase := Idle, tick := c.tick + 1)
    ensures Consistent(Step(c, EndTick), l)
  {
    hide Consistent;
    QuietEventKeeps(c, l, EndTick);
  }

  /** Where the element of the running callback stands in the ledger. */
  lemma CallbackFacts(c: State, l: Ledger, e: TimerElement)
    requires Consistent(c, l) && c.phase.InCallback? && c.phase.uid in l.elem && l.elem[c.phase.uid] == e
    ensures e in l.used && e in l.records && e !in l.linked && l.linked == l.used - {e}
    ensures l.records[e].uid == c.phase.uid && c.phase.uid in c.timers && l.records[e].timer == c.timers[c.phase.uid]
  {
  }

  lemma RescheduleIgnoresDue(t: Timer, target: nat, delay: int)
    ensures Rescheduled(t.(due := 0), target, delay) == Rescheduled(t, target, delay)
  {
  }

  lemma RequeueFacts(c: State, l: Ledger, e: TimerElement, cur: u64, delay: int) returns (next: u64)
    requires Consistent(c, l) && e in l.used && e in l.records && c.phase == InCallback(l.records[e].uid)
    requires !l.records[e].erased && cur == c.target % TWO64
    ensures next == Rescheduled(l.records[e].timer, cur, delay)
    ensures var d := Step(c, Return(delay));
            && Enabled(c, Return(delay)) && d.tick == c.tick && d.target == c.target && d.boot == c.boot
            && d.phase == Dispatching
            && var m := AfterRequeue(l, e, next, DueTick(c.tick, true, next));
               Consistent(d, m) && m.used == l.used && m.linked == l.linked + {e} && l.records.Keys == l.used
  {
    hide Consistent, CellsOk, NodesOk, LinksOk, DueTick;
    next := Rescheduled(l.records[e].timer, cur, delay);
    assert next == Rescheduled(l.records[e].timer, c.target, delay);
    ReturnRequeues(c, l, e, delay);
    ReturnOwned(c, l, e, delay);
  }

  lemma ReturnOwned(c: State, l: Ledger, e: TimerElement, delay: int)
    requires Consistent(c, l) && e in l.used && e in l.records && c.phase == InCallback(l.records[e].uid)
    ensures l.records.Keys == l.used && c.phase.uid in c.timers
  {
    RecordOf(c, l, e);
  }

  lemma ErasedReturnFacts(c: State, l: Ledger, e: TimerElement, delay: int)
    requires Consistent(c, l) && e in l.used && e in l.records && c.phase == InCallback(l.records[e].uid)
    requires l.records[e].erased
    ensures var d := Step(c, Return(delay));
            && Enabled(c, Return(delay)) && d.tick == c.tick && d.target == c.target && d.boot == c.boot
            && d.phase == Dispatching
            && Consistent(d, AfterRelease(l, e))
  {
    RecordOf(c, l, e);
    ReturnReleases(c, l, e, delay);
  }

  lemma DropFacts(c: State, l: Ledger, e: TimerElement)
    requires Consistent(c, l) && e in l.linked && c.phase.Dispatching?
    requires e in l.records && l.records[e].erased && l.records[e].timer.due == c.tick
    ensures var ev := Drop(l.records[e].uid);
            Enabled(c, ev) && SameClock(c, Step(c, ev)) && Consistent(Step(c, ev), AfterRelease(l, e))
  {
    LinkedAreUsed(c, l);
    RecordOf(c, l, e);
    DropKeeps(c, l, e);
  }

  lemma FireFacts(c: State, l: Ledger, e: TimerElement)
    requires Consistent(c, l) && e in l.linked && c.phase.Dispatching?
    requires e in l.records && !l.records[e].erased && l.records[e].timer.due == c.tick
    ensures var u := l.records[e].uid;
            var d := Step(c, Fire(u));
            && Enabled(c, Fire(u)) && d.tick == c.tick && d.target == c.target && d.boot == c.boot
            && d.phase == InCallback(u)
            && Consistent(d, AfterUnlink(l, e)) && u in l.elem && l.elem[u] == e
  {
    LinkedAreUsed(c, l);
    RecordOf(c, l, e);
    FireKeeps(c, l, e);
  }

  lemma KillFacts(c: State, l: Ledger, n: nat, id: u64)
    requires Consistent(c, l) && n < |l.maps| == |l.alive| && l.alive[n] && id in l.maps[n]
    requires !c.phase.Dispatching?
    ensures Enabled(c, Kill(n, id)) && SameClock(c, Step(c, Kill(n, id)))
    ensures l.records.Keys == l.used && l.maps[n][id] in l.used
    ensures var m := AfterKill(l, n, id);
            && Consistent(Step(c, Kill(n, id)), m)
            && m.used == l.used && m.linked == l.linked && m.elem == l.elem
  {
    hide Consistent, AfterKill;
    AliveNode(c, l, n);
    MapsAreUsed(c, l);
    KillKeeps(c, l, n, id);
    AfterKillParts(l, n, id);
  }

  lemma KillAllFacts(c: State, l: Ledger, n: nat)
    requires Consistent(c, l) && n < |l.maps| == |l.alive| && l.alive[n] && !c.phase.Dispatching?
    ensures Enabled(c, KillAll(n)) && SameClock(c, Step(c, KillAll(n)))
    ensures l.records.Keys == l.used && forall e :: e in l.maps[n].Values ==> e in l.used
    ensures var m := AfterKillAll(l, n);
            && Consistent(Step(c, KillAll(n)), m)
            && m.used == l.used && m.linked == l.linked && m.elem == l.elem
  {
    hide Consistent, AfterKillAll;
    AliveNode(c, l, n);
    MapsAreUsed(c, l);
    KillAllKeeps(c, l, n);
    AfterKillAllParts(l, n);
  }

  lemma DestroyFacts(c: State, l: Ledger, n: nat)
    requires Consistent(c, l) && n < |l.maps| == |l.alive| && l.alive[n] && !c.phase.Dispatching?
    ensures Enabled(c, Destroy(n)) && SameClock(c, Step(c, Destroy(n)))
    ensures l.records.Keys == l.used && forall e :: e in l.maps[n].Values ==> e in l.used
    ensures var m := AfterDestroy(l, n);
            && Consistent(Step(c, Destroy(n)), m)
            && m.used == l.used && m.linked == l.linked && m.elem == l.elem
            && m.alive == l.alive[n := false] && m.maps == l.maps[n := map[]]
  {
    hide Consistent, AfterDestroy;
    AliveNode(c, l, n);
    MapsAreUsed(c, l);
    DestroyKeeps(c, l, n);
    AfterKillAllParts(l, n);
  }

  lemma EnrollFacts(c: State, l: Ledger, ev: Event, e: TimerElement) returns (r: Record)
    requires Consistent(c, l) && ev.Set? && ev.node < |l.maps| == |l.alive| && l.alive[ev.node]
    requires !c.phase.Dispatching? && e !in l.used
    ensures r == Record(c.issued, SetTimerOf(c, ev), false)
    ensures Enabled(c, ev) && SameClock(c, Step(c, ev))
    ensures l.records.Keys == l.used && forall id :: id in l.maps[ev.node] ==> l.maps[ev.node][id] in l.used
    ensures var m := AfterSet(l, e, r);
            && Consistent(Step(c, ev), m)
            && m.used == l.used + {e} && m.linked == l.linked + {e} && m.elem == l.elem[c.issued := e]
  {
    hide Consistent, AfterSet;
    r := Record(c.issued, SetTimerOf(c, ev), false);
    AliveNode(c, l, ev.node);
    SetKeeps(c, l, ev, e);
    MapsAreUsed(c, l);
    AfterSetParts(l, e, r);
  }

  /** Tick, target, boot and the kind of phase agree. */
  predicate SameClock(c: State, d: State) {
    c.tick == d.tick && c.target == d.target && c.boot == d.boot && c.phase == d.phase
  }

  lemma SampleStep(c: State, passed: nat)
    ensures Step(c, Sample(passed)) == c.(boot := c.boot + passed)
  {
  }

  function SetTimerOf(c: State, ev: Event): Timer
    requires ev.Set?
  {
    Timer(ev.node, ev.id, ev.period, ev.exact, ev.cron, ev.next, DueTick(c.tick, !c.phase.Idle?, ev.next))
  }
}
