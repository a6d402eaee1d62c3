// The flat calendar: what the timing wheel stands for.  Timers are a map from incarnation numbers to
// records with a due tick; there are no slots and no levels.  The wheel appends the events of this
// machine to its log, each only where the machine enables it.

module Calendar {
  import opened TimerElements
  import opened Wheel

  datatype Timer = Timer(node: nat, id: u64, period: u64, exact: bool, cron: bool, next: u64, due: nat)

  datatype Phase = Idle | Dispatching | InCallback(uid: nat)

  /**
   * tick, target and boot are m_qwLastTime, m_qwCurTime and m_qwTotalTickCount without their 64-bit
   * wrap-around.  owner is the union of the node maps; dead holds the destroyed nodes.
   */
  datatype State = State(
    tick: nat, target: nat, boot: nat,
    phase: Phase,
    timers: map<nat, Timer>,
    owner: map<(nat, u64), nat>,
    dead: set<nat>,
    issued: nat)

  datatype Event =
    | Sample(passed: nat)
    | StartRun(passed: nat)
    | Set(node: nat, id: u64, period: u64, exact: bool, cron: bool, next: u64)
    | Kill(node: nat, id: u64)
    | KillAll(node: nat)
    | Destroy(node: nat)
    | BeginTick
    | Fire(uid: nat)
    | Return(delay: int)
    | Drop(uid: nat)
    | EndTick

  ghost predicate Initial(c: State) {
    && c.tick <= c.target == c.boot
    && c.phase == Idle && c.timers == map[] && c.owner == map[] && c.dead == {} && c.issued == 0
  }

  /** The timer's node still maps its id to this very incarnation; m_bErased is the negation. */
  predicate Owned(c: State, u: nat) {
    u in c.timers && (c.timers[u].node, c.timers[u].id) in c.owner
    && c.owner[(c.timers[u].node, c.timers[u].id)] == u
  }

  /** Unsigned 64-bit wrap-around. */
  function Wrap(x: int): (r: u64)
    ensures 0 <= x < TWO64 ==> r == x
  {
    x % TWO64
  }

  /** m_qwNextTime after a callback. */
  function Rescheduled(t: Timer, target: nat, delay: int): u64 {
    var cur := Wrap(target);
    if t.cron then Wrap(cur + delay * 1000)
    else
      var following := Wrap(t.next + t.period);
      if !t.exact && cur >= following then Wrap(cur + t.period) else following
  }

  predicate Enabled(c: State, e: Event) {
    match e
    case Sample(_) => !c.phase.Dispatching?
    case StartRun(_) => c.phase.Idle?
    case Set(n, _, _, _, _, _) => !c.phase.Dispatching? && n !in c.dead
    case Kill(n, _) => !c.phase.Dispatching? && n !in c.dead
    case KillAll(n) => !c.phase.Dispatching? && n !in c.dead
    case Destroy(n) => !c.phase.Dispatching? && n !in c.dead
    case BeginTick => c.phase.Idle? && c.tick % TWO64 != c.target % TWO64
    case Fire(u) => c.phase.Dispatching? && Owned(c, u) && c.timers[u].due == c.tick
    case Return(_) => c.phase.InCallback? && c.phase.uid in c.timers
    case Drop(u) => c.phase.Dispatching? && u in c.timers && !Owned(c, u) && c.timers[u].due == c.tick
    case EndTick => c.phase.Dispatching? && forall u :: u in c.timers ==> c.timers[u].due != c.tick
  }

  function WithoutNode(owner: map<(nat, u64), nat>, n: nat): (r: map<(nat, u64), nat>)
    ensures forall k :: k in r <==> k in owner && k.0 != n
    ensures forall k :: k in r ==> r[k] == owner[k]
  {
    map k | k in owner && k.0 != n :: owner[k]
  }

  function Step(c: State, e: Event): State {
    match e
    case Sample(passed) => c.(boot := c.boot + passed)
    case StartRun(passed) => c.(boot := c.boot + passed, target := c.boot + passed)
    case Set(n, id, period, exact, cron, next) =>
      var t := Timer(n, id, period, exact, cron, next, DueTick(c.tick, !c.phase.Idle?, next));
      c.(timers := c.timers[c.issued := t], owner := c.owner[(n, id) := c.issued], issued := c.issued + 1)
    case Kill(n, id) => c.(owner := c.owner - {(n, id)})
    case KillAll(n) => c.(owner := WithoutNode(c.owner, n))
    case Destroy(n) => c.(owner := WithoutNode(c.owner, n), dead := c.dead + {n})
    case BeginTick => c.(phase := Dispatching)
    case Fire(u) => c.(phase := InCallback(u))
    case Return(delay) =>
      if c.phase.InCallback? && c.phase.uid in c.timers then
        var u := c.phase.uid;
        if Owned(c, u) then
          var next := Rescheduled(c.timers[u], c.target, delay);
          c.(phase := Dispatching,
             timers := c.timers[u := c.timers[u].(next := next, due := DueTick(c.tick, true, next))])
        else
          c.(phase := Dispatching, timers := c.timers - {u})
      else c
    case Drop(u) => c.(timers := c.timers - {u})
    case EndTick => c.(phase := Idle, tick := c.tick + 1)
  }

  /** A history: log[i] leads from states[i] to states[i + 1]. */
  datatype Run = Run(states: seq<State>, log: seq<Event>)

  ghost predicate StepsAt(r: Run, i: nat)
    requires |r.states| == |r.log| + 1 && i < |r.log|
  {
    Enabled(r.states[i], r.log[i]) && r.states[i + 1] == Step(r.states[i], r.log[i])
  }

  ghost predicate IsRun(r: Run) {
    && |r.states| == |r.log| + 1
    && Initial(r.states[0])
    && forall i :: 0 <= i < |r.log| ==> StepsAt(r, i)
  }

  function Last(r: Run): State
    requires |r.states| > 0
  {
    r.states[|r.states| - 1]
  }

  function Extend(r: Run, e: Event): Run
    requires |r.states| > 0
  {
    Run(r.states + [Step(Last(r), e)], r.log + [e])
  }

  /** r is an earlier stage of the history s. */
  ghost predicate Precedes(r: Run, s: Run) {
    r.states <= s.states && r.log <= s.log
  }

  lemma ExtendIsRun(r: Run, e: Event)
    requires IsRun(r) && Enabled(Last(r), e)
    ensures IsRun(Extend(r, e)) && Last(Extend(r, e)) == Step(Last(r), e) && Precedes(r, Extend(r, e))
  {
    var s := Extend(r, e);
    forall i | 0 <= i < |s.log|
      ensures StepsAt(s, i)
    {
      if i < |r.log| { assert StepsAt(r, i); }
    }
  }

  ghost predicate Inv(c: State) {
    && c.tick <= c.target <= c.boot
    && (!c.phase.Idle? ==> c.tick < c.target)
    && (forall u :: u in c.timers ==> u < c.issued && c.tick <= c.timers[u].due)
    && (forall k :: k in c.owner ==> Owned(c, c.owner[k]) && k.0 !in c.dead
                                     && k == (c.timers[c.owner[k]].node, c.timers[c.owner[k]].id))
    && (c.phase.InCallback? ==> c.phase.uid in c.timers && c.timers[c.phase.uid].due == c.tick)
  }

  lemma NotPast(tick: nat, dispatching: bool, next: u64)
    ensures tick <= DueTick(tick, dispatching, next)
  {
  }

  lemma StepKeepsInv(c: State, e: Event)
    requires Inv(c) && Enabled(c, e)
    ensures Inv(Step(c, e))
  {
    hide DueTick, Rescheduled;
    var d := Step(c, e);
    if e.EndTick? {
      assert c.tick < c.target;
    } else if e.Set? {
      NotPast(c.tick, !c.phase.Idle?, e.next);
    } else if e.Return? {
      NotPast(c.tick, true, Rescheduled(c.timers[c.phase.uid], c.target, e.delay));
    }
    forall k | k in d.owner
      ensures Owned(d, d.owner[k]) && k.0 !in d.dead
              && k == (d.timers[d.owner[k]].node, d.timers[d.owner[k]].id)
    {
      if e.Set? && k == (e.node, e.id) {
      } else {
        assert k in c.owner;
      }
    }
  }

  lemma {:induction false} ReachableInv(r: Run, i: nat)
    requires IsRun(r) && i <= |r.log|
    ensures Inv(r.states[i])
  {
    if i > 0 {
      ReachableInv(r, i - 1);
      assert StepsAt(r, i - 1);
      StepKeepsInv(r.states[i - 1], r.log[i - 1]);
    }
  }

  /** One event of a run: it was enabled, and the states around it satisfy the invariant. */
  lemma Transition(r: Run, i: nat)
    requires IsRun(r) && i < |r.log|
    ensures Enabled(r.states[i], r.log[i])
    ensures r.states[i + 1] == Step(r.states[i], r.log[i])
    ensures Inv(r.states[i]) && Inv(r.states[i + 1])
  {
    assert StepsAt(r, i);
    ReachableInv(r, i);
    StepKeepsInv(r.states[i], r.log[i]);
  }
}
