// What a client can rely on: what each of its calls means on the calendar, in ticks and by node and id, and that a Run
// makes all the calls of its callbacks.

module RunLaws {
  import opened TimerElements
  import opened Wheel
  import opened Calendar
  import opened CalendarLaws
  import opened TimerLedger
  import opened VirtualClock
  import opened ClientCalls
  import Cron = CronFields
  import CronSearch
  import CronTexts
  import Leastness
  import NextInstant

  // ----- single calls

  /** On node n there is, under this id, the timer t. */
  predicate Has(c: State, n: nat, id: u64, t: Timer) {
    (n, id) in c.owner && c.owner[(n, id)] in c.timers && c.timers[c.owner[(n, id)]] == t
  }

  /** From c to d no timer changed, and no key but those of gone its owner; the clock may have been read. */
  ghost predicate Otherwise(c: State, d: State, gone: iset<(nat, u64)>) {
    && d.tick == c.tick && d.target == c.target && d.phase == c.phase && d.boot >= c.boot
    && (forall u :: u in c.timers ==> u in d.timers && d.timers[u] == c.timers[u])
    && (forall k :: k !in gone ==> (k in d.owner <==> k in c.owner))
    && (forall k :: k !in gone && k in c.owner ==> d.owner[k] == c.owner[k])
  }

  /** A timer set to fire `ahead` of a reading of the clock is due then exactly if that is less than 2^63 ticks away. */
  lemma ArmedIsOnTime(r: Run, passed: nat, e: TimerSetting)
    requires |r.states| > 0 && Inv(Last(r)) && !Last(r).phase.Dispatching? && e.ahead >= 0
    ensures var c, d := Last(r), Last(Armed(r, passed, e));
            var at := c.boot + passed + e.ahead;
            var due := DueTick(c.tick, !c.phase.Idle?, at % TWO64);
            && Has(d, e.node, e.id, Timer(e.node, e.id, e.period, e.exact, e.cron, at % TWO64, due))
            && (due == at <==> at - c.tick < TWO63) && d.owner[(e.node, e.id)] !in c.timers
            && Otherwise(c, d, iset{(e.node, e.id)}) && d.boot == c.boot + passed && d.dead == c.dead
  {
    hide DueTick;
    var c := Last(Extend(r, Sample(passed)));
    StepKeepsInv(Last(r), Sample(passed));
    SetIsOnTime(c, e.ahead);
  }

  lemma ArmedReads(r: Run, passed: nat, e: TimerSetting)
    requires |r.states| > 0
    ensures |Armed(r, passed, e).states| > 0 && Last(Armed(r, passed, e)).boot == Last(r).boot + passed
  {
  }

  /** What an armed timer is, a new one: its data, and the tick it is due at if that is less than 2^63 ticks away. */
  ghost predicate Arrives(c: State, d: State, n: nat, id: u64, period: u64, exact: bool, cron: bool, at: nat) {
    && Otherwise(c, d, iset{(n, id)})
    && (n, id) in d.owner && d.owner[(n, id)] !in c.timers
    && exists t :: Has(d, n, id, t) && t.node == n && t.id == id && t.period == period && t.exact == exact
                   && t.cron == cron && t.next == at % TWO64 && (t.due == at <==> at - c.tick < TWO63)
  }

  /**
   * SetTimer: the timer first fires qwFirst after the call and has the period qwCD, unless all cells are in use.
   */
  lemma SetTimerIsOnTime(v: View, w: View, room: nat, n: nat, id: u64, period: u64, first: u64, exact: bool, now: u32)
    requires Sound(v) && !Last(v.run).phase.Dispatching? && Lives(v, n)
    requires Does(SetTimerOp(n, id, period, first, exact, now), v, w, room)
    ensures Cells(v) == room ==> w == v
    ensures Cells(v) != room ==>
      && |w.run.states| > 0 && w.ticks == now && w.speed == v.speed && w.leaked == v.leaked
      && var c, d := Last(v.run), Last(w.run);
         && d.boot == c.boot + Passed(v.ticks, now, v.speed)
         && Arrives(c, d, n, id, period, exact, false, d.boot + first)
  {
    hide IsRun, DueTick, Step, Passed, Otherwise;
    if Cells(v) != room {
      ArmedIsOnTime(v.run, Passed(v.ticks, now, v.speed), TimerSetting(n, id, period, exact, false, first));
    }
  }

  lemma ArmedArrives(v: View, n: nat, id: u64, passed: nat, wait: nat)
    requires Sound(v) && !Last(v.run).phase.Dispatching?
    ensures var d := Last(Armed(v.run, passed, TimerSetting(n, id, 0, false, true, wait * 1000)));
            Arrives(Last(v.run), d, n, id, 0, false, true, d.boot + 1000 * wait)
  {
    hide IsRun, DueTick, Step, Otherwise;
    ArmedIsOnTime(v.run, passed, TimerSetting(n, id, 0, false, true, wait * 1000));
  }

  /**
   * SetTimerCron: with a free cell and a text, either the engine throws and the cell is lost, or the timer first fires
   * at the time of the call, in ticks, plus the way to the engine's answer, in seconds.
   */
  lemma SetTimerCronIsOnTime(v: View, w: View, room: nat, n: nat, id: u64, expr: string, cur: int, now: u32)
    requires Sound(v) && !Last(v.run).phase.Dispatching? && Lives(v, n)
    requires Does(SetTimerCronOp(n, id, expr, cur, now), v, w, room)
    ensures expr == "" || Cells(v) == room ==> w == v
    ensures expr != "" && Cells(v) != room && !Leaks(v, w) ==>
      && |w.run.states| > 0 && w.ticks == now && w.speed == v.speed && w.leaked == v.leaked
      && Cron.Reads(expr)
      && var c, d := Last(v.run), Last(w.run);
         && d.boot == c.boot + Passed(v.ticks, now, v.speed)
         && exists next :: Cron.FromText(expr, cur, next)
              && (next >= cur ==> Arrives(c, d, n, id, 0, false, true, d.boot + 1000 * (next - cur)))
  {
    hide IsRun, DueTick, Step, Passed, Otherwise, Arrives, Consistent, Armed, Cron.Reads, Cron.FromText;
    if expr != "" && Cells(v) != room && !Leaks(v, w) {
      var answer :| Cron.Answers(expr, cur, answer) && ArmsAnswered(v, w, room, n, id, now, answer);
      ArmedReads(v.run, Passed(v.ticks, now, v.speed), TimerSetting(n, id, 0, false, true, answer.value * 1000));
      if answer.value >= 0 {
        ArmedArrives(v, n, id, Passed(v.ticks, now, v.speed), answer.value);
      }
      assert Cron.FromText(expr, cur, cur + answer.value);
    }
  }

  lemma TextIsAnswered(expr: string, cex: CronSearch.CronExpr, cur: int, next: int)
    requires CronSearch.ValidExpr(cex) && Cron.Says(expr, cex) && Cron.FromText(expr, cur, next)
    requires NextInstant.InTime(cur) && Leastness.Orderly(cex) && !Leastness.Hasty(cex, NextInstant.ToTm(cur))
    ensures if next == CronSearch.INVALID_TIME then NextInstant.NoneSoon(cex, cur)
            else cur < next && NextInstant.IsNext(cex, cur, next)
  {
    hide Cron.Says, NextInstant.InTime, Leastness.Orderly, Leastness.Hasty, NextInstant.ToTm, NextInstant.Misleads;
    var said :| CronSearch.ValidExpr(said) && Cron.Says(expr, said) && Cron.Worth(said, cur, next);
    CronTexts.SaysOne(expr, said, cex);
  }

  /**
   * From the text to the tick: where an orderly expression is not searched hastily, SetTimerCron sets a timer that first
   * fires as many ticks after the call as there are milliseconds to the next instant the expression allows, or there is
   * none to the end of the fourth year on.
   */
  lemma CronTimerIsOnTime(v: View, w: View, room: nat, n: nat, id: u64, expr: string, cur: int, now: u32,
                          cex: CronSearch.CronExpr)
    requires Sound(v) && !Last(v.run).phase.Dispatching? && Lives(v, n) && Cells(v) != room && expr != ""
    requires Does(SetTimerCronOp(n, id, expr, cur, now), v, w, room)
    requires CronSearch.ValidExpr(cex) && Cron.Says(expr, cex)
    requires NextInstant.InTime(cur) && Leastness.Orderly(cex) && !Leastness.Hasty(cex, NextInstant.ToTm(cur))
    ensures |w.run.states| > 0 && w.leaked == v.leaked
    ensures var c, d := Last(v.run), Last(w.run);
            && d.boot == c.boot + Passed(v.ticks, now, v.speed)
            && (NextInstant.NoneSoon(cex, cur)
                || exists next :: NextInstant.IsNext(cex, cur, next) && cur < next
                     && Arrives(c, d, n, id, 0, false, true, d.boot + 1000 * (next - cur)))
  {
    hide Consistent, IsRun, Passed, Does, Otherwise, Arrives, Leaks, Cron.Reads, Cron.Says, Cron.FromText;
    hide NextInstant.InTime, Leastness.Orderly, Leastness.Hasty, NextInstant.ToTm, NextInstant.IsNext;
    hide NextInstant.NoneSoon, CronSearch.ValidExpr;
    CronTexts.SaysReads(expr, cex);
    LeaksExactly(SetTimerCronOp(n, id, expr, cur, now), v, w, room);
    if Leaks(v, w) {
      LeakIsMore(v, w);
    }
    SetTimerCronIsOnTime(v, w, room, n, id, expr, cur, now);
    var next :| Cron.FromText(expr, cur, next)
                && (next >= cur ==>
                      Arrives(Last(v.run), Last(w.run), n, id, 0, false, true, Last(w.run).boot + 1000 * (next - cur)));
    TextIsAnswered(expr, cex, cur, next);
  }

  lemma LeakIsMore(v: View, w: View)
    requires Leaks(v, w)
    ensures w.leaked != v.leaked
  {
  }

  /** KillTimer takes its one timer away from its node, if there is one, and touches no other. */
  lemma KillTimerIsExact(v: View, w: View, room: nat, n: nat, id: u64)
    requires Sound(v) && Lives(v, n) && Does(KillTimerOp(n, id), v, w, room)
    ensures |w.run.states| > 0 && w.ticks == v.ticks && w.speed == v.speed && w.leaked == v.leaked
    ensures var c, d := Last(v.run), Last(w.run);
            && Otherwise(c, d, iset{(n, id)}) && (n, id) !in d.owner && d.boot == c.boot && d.dead == c.dead
    ensures (n, id) !in Last(v.run).owner ==> w == v
  {
    hide IsRun, CellsOk, LinksOk;
  }

  /** KillTimer without an id takes all timers of its node away, and no other. */
  lemma KillTimersIsExact(v: View, w: View, room: nat, n: nat)
    requires Sound(v) && Lives(v, n) && Does(KillTimersOp(n), v, w, room)
    ensures |w.run.states| > 0 && w.ticks == v.ticks && w.speed == v.speed && w.leaked == v.leaked
    ensures var c, d := Last(v.run), Last(w.run);
            && Otherwise(c, d, iset k: (nat, u64) | k.0 == n) && (forall k :: k in d.owner ==> k.0 != n)
            && d.boot == c.boot && d.dead == c.dead
  {
    hide IsRun, CellsOk, LinksOk;
  }

  /** So does the end of a node, which is a dead one from then on. */
  lemma EndIsExact(v: View, w: View, room: nat, n: nat)
    requires Sound(v) && Lives(v, n) && Does(EndNodeOp(n), v, w, room)
    ensures |w.run.states| > 0 && w.ticks == v.ticks && w.speed == v.speed && w.leaked == v.leaked
    ensures var c, d := Last(v.run), Last(w.run);
            && Otherwise(c, d, iset k: (nat, u64) | k.0 == n) && (forall k :: k in d.owner ==> k.0 != n)
            && d.boot == c.boot && d.dead == c.dead + {n}
  {
    hide IsRun, CellsOk, LinksOk;
  }

  /** A new node is the next one, lives, and has no timers. */
  lemma NewNodeIsEmpty(v: View, w: View, room: nat)
    requires Sound(v) && Does(NewNodeOp, v, w, room)
    ensures var n := |v.ledger.maps|;
            |w.ledger.maps| == n + 1 && Lives(w, n) && w.ledger.maps[n] == map[] && w.ledger.maps[..n] == v.ledger.maps
    ensures forall n :: Lives(v, n) ==> Lives(w, n)
    ensures w.run == v.run && w.leaked == v.leaked && w.ticks == v.ticks && w.speed == v.speed
  {
    hide IsRun, CellsOk, LinksOk;
  }

  /** SetSpeed changes nothing but how the next readings count: fully at 10000, doubly at 20000. */
  lemma SetSpeedCounts(v: View, w: View, room: nat, speed: u32, now: u32)
    requires Does(SetSpeedOp(speed), v, w, room)
    ensures w.run == v.run && w.ledger == v.ledger && w.leaked == v.leaked && w.ticks == v.ticks
    ensures speed == 10000 ==> Passed(w.ticks, now, w.speed) == (now - v.ticks) % TWO32
    ensures speed == 20000 ==> Passed(w.ticks, now, w.speed) == 2 * ((now - v.ticks) % TWO32)
    ensures speed == 0 ==> Passed(w.ticks, now, w.speed) == 0
  {
  }

  // ----- copies

  /** The timer that n has under id in d is a new one, like t. */
  ghost predicate TwinOf(c: State, d: State, n: nat, id: u64, t: Timer) {
    && (n, id) in d.owner && c.issued <= d.owner[(n, id)] < d.issued
    && Has(d, n, id, Timer(n, id, t.period, t.exact, t.cron, t.next, DueTick(c.tick, !c.phase.Idle?, t.next)))
  }

  ghost predicate AllTwins(c: State, d: State, n: nat, twins: map<u64, Timer>, ids: set<u64>)
    requires ids <= twins.Keys
  {
    forall id :: id in ids ==> TwinOf(c, d, n, id, twins[id])
  }

  /** The ids have twins on node n, as new timers; otherwise c and d agree. */
  ghost predicate Twinned(c: State, d: State, n: nat, twins: map<u64, Timer>, ids: set<u64>)
    requires ids <= twins.Keys
  {
    && Otherwise(c, d, iset k: (nat, u64) | k.0 == n && k.1 in ids)
    && d.boot == c.boot && d.dead == c.dead && c.issued <= d.issued && AllTwins(c, d, n, twins, ids)
  }

  function IdsOf(order: seq<u64>): set<u64> {
    set id | id in order
  }

  lemma NoIds()
    ensures IdsOf([]) == {}
  {
  }

  lemma IdsOn(order: seq<u64>)
    requires order != []
    ensures var k := |order| - 1; IdsOf(order) == IdsOf(order[..k]) + {order[k]}
  {
    assert order == order[..|order| - 1] + [order[|order| - 1]];
  }

  lemma TwinStays(c: State, d: State, n: nat, id: u64, t: Timer, other: u64, o: Timer)
    requires TwinOf(c, d, n, id, t) && other != id
    ensures TwinOf(c, Step(d, Set(n, other, o.period, o.exact, o.cron, o.next)), n, id, t)
  {
    hide DueTick;
  }

  lemma NewTwin(c: State, d: State, n: nat, id: u64, t: Timer)
    requires d.tick == c.tick && d.phase == c.phase && c.issued <= d.issued
    ensures TwinOf(c, Step(d, Set(n, id, t.period, t.exact, t.cron, t.next)), n, id, t)
  {
    hide DueTick;
  }

  lemma NothingElse(c: State, d: State, n: nat, ids: set<u64>, id: u64, t: Timer)
    requires Otherwise(c, d, iset k: (nat, u64) | k.0 == n && k.1 in ids) && c.issued <= d.issued
    requires forall u :: u in c.timers ==> u < c.issued
    ensures Otherwise(c, Step(d, Set(n, id, t.period, t.exact, t.cron, t.next)),
                      iset k: (nat, u64) | k.0 == n && k.1 in ids + {id})
  {
    hide DueTick;
  }

  lemma OneTwin(c: State, d: State, n: nat, twins: map<u64, Timer>, ids: set<u64>, id: u64)
    requires ids <= twins.Keys && id in twins && Twinned(c, d, n, twins, ids)
    requires forall u :: u in c.timers ==> u < c.issued
    ensures var t := twins[id];
            Twinned(c, Step(d, Set(n, id, t.period, t.exact, t.cron, t.next)), n, twins, ids + {id})
  {
    hide Otherwise, TwinOf;
    var t := twins[id];
    NothingElse(c, d, n, ids, id, t);
    NewTwin(c, d, n, id, t) by { SameTime(c, d, n, ids); }
    forall i | i in ids && i != id
      ensures TwinOf(c, Step(d, Set(n, id, t.period, t.exact, t.cron, t.next)), n, i, twins[i])
    {
      TwinStays(c, d, n, i, twins[i], id, t);
    }
  }

  lemma SameTime(c: State, d: State, n: nat, ids: set<u64>)
    requires Otherwise(c, d, iset k: (nat, u64) | k.0 == n && k.1 in ids)
    ensures d.tick == c.tick && d.phase == c.phase
  {
  }

  lemma {:induction false} CopiedTwins(r: Run, n: nat, twins: map<u64, Timer>, order: seq<u64>)
    requires |r.states| > 0 && forall id :: id in order ==> id in twins
    requires forall u :: u in Last(r).timers ==> u < Last(r).issued
    ensures Twinned(Last(r), Last(Copied(r, n, twins, order)), n, twins, IdsOf(order))
  {
    hide Step, Twinned;
    if order == [] {
      NoTwin(Last(r), n, twins);
      NoIds();
    } else {
      var k := |order| - 1;
      CopiedTwins(r, n, twins, order[..k]);
      IdsOn(order);
      OneTwin(Last(r), Last(Copied(r, n, twins, order[..k])), n, twins, IdsOf(order[..k]), order[k]);
    }
  }

  lemma NoTwin(c: State, n: nat, twins: map<u64, Timer>)
    ensures Twinned(c, c, n, twins, {})
  {
  }

  /** What the ledger records for the ids of a node is what the calendar has for them. */
  lemma TimersAre(c: State, l: Ledger, n: nat)
    requires Consistent(c, l) && n < |l.maps|
    ensures TimersOf(l, n).Keys == l.maps[n].Keys
    ensures forall id :: id in TimersOf(l, n) <==> (n, id) in c.owner
    ensures forall id :: id in TimersOf(l, n) ==> Has(c, n, id, TimersOf(l, n)[id])
  {
    hide LinksOk;
    forall id | id in l.maps[n]
      ensures id in TimersOf(l, n) && (n, id) in c.owner && Has(c, n, id, TimersOf(l, n)[id])
    {
      MappedCell(c, l, n, id);
    }
  }

  /** A twin is due with its original, if that is due when its expiry says. */
  lemma TwinIsOnTime(c: State, t: Timer)
    requires c.tick <= t.due < c.tick + TWO63 && t.next == t.due % TWO64 && (!c.phase.Idle? ==> c.tick < t.due)
    ensures DueTick(c.tick, !c.phase.Idle?, t.next) == t.due
  {
    CascadeKeepsDue(c.tick, t.due);
  }

  /**
   * CopyFrom: while there are cells, each timer of src gets one twin, of the same data, with its own id, and on time if
   * the original is; nothing else changes.
   */
  lemma CopyFromIsExact(v: View, w: View, room: nat, n: nat, src: nat)
    requires Sound(v) && Lives(v, n) && Lives(v, src) && Does(CopyFromOp(n, src), v, w, room)
    ensures |w.run.states| > 0 && w.ticks == v.ticks && w.speed == v.speed && w.leaked == v.leaked
    ensures var c, d, twins := Last(v.run), Last(w.run), TimersOf(v.ledger, src);
            exists ids: set<u64> {:trigger Twinned(c, d, n, twins, ids)} ::
              && ids <= twins.Keys && (ids == twins.Keys || Cells(v) + |ids| == room)
              && Twinned(c, d, n, twins, ids)
    ensures forall id :: id in TimersOf(v.ledger, src) <==> (src, id) in Last(v.run).owner
    ensures forall id :: id in TimersOf(v.ledger, src) ==> Has(Last(v.run), src, id, TimersOf(v.ledger, src)[id])
  {
    hide IsRun, Step, CellsOk, LinksOk, NodesOk, Twinned, TimersOf, Has;
    var order :| Copies(v, w, n, src, order, room);
    var twins := TimersOf(v.ledger, src);
    TimersAre(Last(v.run), v.ledger, src);
    CopiedTwins(v.run, n, twins, order);
    DistinctIds(order);
    var ids := IdsOf(order);
    if |ids| == |v.ledger.maps[src]| {
      assert |v.ledger.maps[src].Keys| == |v.ledger.maps[src]|;
      AllOfThem(ids, twins.Keys);
    }
  }

  lemma {:induction false} DistinctIds(order: seq<u64>)
    requires forall i, j :: 0 <= i < j < |order| ==> order[i] != order[j]
    ensures |IdsOf(order)| == |order|
  {
    if order != [] {
      var k := |order| - 1;
      IdsOn(order);
      DistinctIds(order[..k]);
      assert order[k] !in IdsOf(order[..k]);
    }
  }

  lemma AllOfThem(a: set<u64>, b: set<u64>)
    requires a <= b && |a| == |b|
    ensures a == b
  {
    assert |b - a| == |b| - |a|;
  }

  // ----- a Run makes the calls of its callbacks

  /** From v to w no callback was made. */
  ghost predicate Quiet(v: View, w: View) {
    && |v.run.states| > 0 && |w.run.states| > 0 && Precedes(v.run, w.run)
    && FireCount(w.run.log) == FireCount(v.run.log)
  }

  lemma {:induction false} CopiedQuietly(r: Run, n: nat, twins: map<u64, Timer>, order: seq<u64>)
    requires |r.states| > 0 && forall id :: id in order ==> id in twins
    ensures var s := Copied(r, n, twins, order); Precedes(r, s) && FireCount(s.log) == FireCount(r.log)
  {
    hide Step, FireCount;
    if order != [] {
      var k := |order| - 1;
      var t := twins[order[k]];
      CopiedQuietly(r, n, twins, order[..k]);
      FireCountExtends(Copied(r, n, twins, order[..k]), Set(n, order[k], t.period, t.exact, t.cron, t.next));
    }
  }

  lemma ArmedQuietly(r: Run, passed: nat, e: TimerSetting)
    requires |r.states| > 0
    ensures var s := Armed(r, passed, e); |s.states| > 0 && Precedes(r, s) && FireCount(s.log) == FireCount(r.log)
  {
    hide Step, FireCount;
    var ticked := Extend(r, Sample(passed));
    FireCountExtends(r, Sample(passed));
    FireCountExtends(ticked, Set(e.node, e.id, e.period, e.exact, e.cron, (Last(ticked).boot + e.ahead) % TWO64));
  }

  /** No client call makes a callback. */
  lemma CallsAreQuiet(op: ClientOp, v: View, w: View, room: nat)
    requires Does(op, v, w, room)
    ensures Quiet(v, w)
  {
    hide Step, FireCount, Extend, Armed, Copied, Cron.Reads, Cron.FromText, Passed;
    match op
    case SetTimerOp(n, id, period, first, exact, now) =>
      ArmedQuietly(v.run, Passed(v.ticks, now, v.speed), TimerSetting(n, id, period, exact, false, first));
    case SetTimerCronOp(n, id, expr, cur, now) =>
      if w != v && !Leaks(v, w) {
        var answer :| Cron.Answers(expr, cur, answer) && ArmsAnswered(v, w, room, n, id, now, answer);
        ArmedQuietly(v.run, Passed(v.ticks, now, v.speed), TimerSetting(n, id, 0, false, true, answer.value * 1000));
      }
    case KillTimerOp(n, id) => FireCountExtends(v.run, Kill(n, id));
    case KillTimersOp(n) => FireCountExtends(v.run, KillAll(n));
    case EndNodeOp(n) => FireCountExtends(v.run, Destroy(n));
    case CopyFromOp(n, src) =>
      if Lives(v, n) && Lives(v, src) {
        var order :| Copies(v, w, n, src, order, room);
        CopiedQuietly(v.run, n, TimersOf(v.ledger, src), order);
      }
    case _ =>
  }

  lemma {:induction false} BodyIsQuiet(ops: seq<ClientOp>, views: seq<View>, room: nat, a: nat, b: nat)
    requires Performs(ops, views, room) && a <= b <= |ops|
    ensures Quiet(views[a], views[b])
    decreases b
  {
    hide Does, IsRun, Consistent, FireCount;
    assert Sound(views[a]);
    if a < b {
      BodyIsQuiet(ops, views, room, a, b - 1);
      CallsAreQuiet(ops[b - 1], views[b - 1], views[b], room);
    }
  }

  /** From v to w there were n callbacks. */
  ghost predicate Made(v: View, w: View, n: nat) {
    && |v.run.states| > 0 && |w.run.states| > 0 && Precedes(v.run, w.run)
    && FireCount(w.run.log) == FireCount(v.run.log) + n
  }

  lemma MadeByOne(v: View, w: View, e: Event)
    requires |v.run.states| > 0 && w.run == Extend(v.run, e)
    ensures Made(v, w, if e.Fire? then 1 else 0)
  {
    hide Step, FireCount;
    FireCountExtends(v.run, e);
  }

  lemma MadeByCall(v: View, w: View, ops: seq<ClientOp>, views: seq<View>, delay: int, room: nat)
    requires Calls(v, w, ops, views, delay, room)
    ensures Made(v, w, 1) && Precedes(views[0].run, w.run)
  {
    hide Does, Sound, Step, FireCount, Extend;
    var u: nat :| Only(v, views[0], Extend(v.run, Fire(u)));
    MadeByOne(v, views[0], Fire(u));
    BodyIsQuiet(ops, views, room, 0, |ops|);
    MadeByOne(views[|ops|], w, Return(delay));
  }

  lemma MadeByMove(v: View, w: View, m: Move, script: nat -> seq<ClientOp>, delays: nat -> int, k: nat, room: nat)
    requires Moved(v, w, m, script, delays, k, room)
    ensures Made(v, w, if m.Called? then 1 else 0)
  {
    hide Calls, Step, FireCount, Extend, Made;
    match m
    case TickBegins => MadeByOne(v, w, BeginTick);
    case Dropped =>
      var u: nat :| Only(v, w, Extend(v.run, Drop(u)));
      MadeByOne(v, w, Drop(u));
    case Called(views) => MadeByCall(v, w, script(k), views, delays(k), room);
    case TickEnds => MadeByOne(v, w, EndTick);
  }

  lemma {:induction false} MadeByStory(s: Story, v: View, w: View, script: nat -> seq<ClientOp>, delays: nat -> int,
                                       room: nat, i: nat, j: nat)
    requires Tells(s, v, w, script, delays, room) && i <= j <= |s.moves| && |v.run.states| > 0
    ensures Count(s.moves[..i]) <= Count(s.moves[..j])
    ensures |s.trace[i].run.states| > 0
    ensures Made(s.trace[i], s.trace[j], Count(s.moves[..j]) - Count(s.moves[..i]))
    decreases i + j
  {
    hide Moved, FireCount, Count;
    if i < j {
      MadeByStory(s, v, w, script, delays, room, i, j - 1);
      MadeByMove(s.trace[j - 1], s.trace[j], s.moves[j - 1], script, delays, Count(s.moves[..j - 1]), room);
      assert s.moves[..j - 1] + [s.moves[j - 1]] == s.moves[..j];
      CountOn(s.moves[..j - 1], s.moves[j - 1]);
    } else if i > 0 {
      MadeByStory(s, v, w, script, delays, room, i - 1, j);
    }
  }

  lemma {:induction false} CallbackMove(moves: seq<Move>, k: nat) returns (i: nat)
    requires k < Count(moves)
    ensures i < |moves| && moves[i].Called? && Count(moves[..i]) == k
  {
    i := |moves| - 1;
    if k < Count(moves[..i]) {
      var before := moves[..i];
      i := CallbackMove(before, k);
      assert before[..i] == moves[..i];
    }
  }

  /** All of a callback's body lies between v and w, with one more callback made than at its beginning. */
  lemma BodyLies(v: View, before: View, ops: seq<ClientOp>, views: seq<View>, delay: int, after: View, w: View, k: nat,
                 room: nat, j: nat)
    requires Made(v, before, k) && Calls(before, after, ops, views, delay, room) && j <= |ops|
    requires |w.run.states| > 0 && Precedes(after.run, w.run)
    ensures Made(v, views[j], k + 1) && Precedes(views[j].run, w.run)
  {
    hide Does, Sound, Step, FireCount, Extend;
    var u: nat :| Only(before, views[0], Extend(before.run, Fire(u)));
    MadeByOne(before, views[0], Fire(u));
    BodyIsQuiet(ops, views, room, 0, j);
    BodyIsQuiet(ops, views, room, j, |ops|);
    MadeByOne(views[|ops|], after, Return(delay));
  }

  /**
   * Callback k of a Run, counted from 0, is made after k others: a timer fires, the calls of script(k) are made in
   * this order, and the callback returns with delays(k).
   */
  lemma CallbackIsMade(s: Story, v: View, w: View, script: nat -> seq<ClientOp>, delays: nat -> int, room: nat, k: nat)
    returns (before: View, u: nat, views: seq<View>, after: View)
    requires Tells(s, v, w, script, delays, room) && |v.run.states| > 0 && k < Count(s.moves)
    ensures Made(v, before, k) && |after.run.states| > 0 && Precedes(after.run, w.run)
    ensures |views| == |script(k)| + 1 && views[0].run == Extend(before.run, Fire(u))
    ensures forall j :: 0 <= j < |script(k)| ==> Does(script(k)[j], views[j], views[j + 1], room)
    ensures forall j :: 0 <= j < |views| ==>
              Sound(views[j]) && Made(v, views[j], k + 1) && Precedes(views[j].run, w.run)
    ensures views[|script(k)|].run.states != [] && after.run == Extend(views[|script(k)|].run, Return(delays(k)))
  {
    hide Does, Sound, Extend, FireCount;
    var i := CallbackMove(s.moves, k);
    MadeByStory(s, v, w, script, delays, room, 0, i);
    MadeByStory(s, v, w, script, delays, room, i + 1, |s.moves|);
    assert Moved(s.trace[i], s.trace[i + 1], s.moves[i], script, delays, k, room);
    before, views, after := s.trace[i], s.moves[i].views, s.trace[i + 1];
    u :| Only(before, views[0], Extend(before.run, Fire(u)));
    forall j | 0 <= j < |views|
      ensures Sound(views[j]) && Made(v, views[j], k + 1) && Precedes(views[j].run, w.run)
    {
      BodyLies(v, before, script(k), views, delays(k), after, w, k, room, j);
    }
  }

  lemma KillIsLogged(v: View, w: View, room: nat, n: nat, id: u64)
    requires Sound(v) && Lives(v, n) && Does(KillTimerOp(n, id), v, w, room) && (n, id) in Last(v.run).owner
    ensures w.run == Extend(v.run, Kill(n, id)) && Owned(Last(v.run), Last(v.run).owner[(n, id)])
    ensures Ends(Kill(n, id), Last(v.run).timers[Last(v.run).owner[(n, id)]])
    ensures |v.run.states| == |v.run.log| + 1
  {
    hide Step, CellsOk, LinksOk;
  }

  /** After the event that ends it, which leads on from r, a timer gets no callback in any continuation. */
  lemma EndedForGood(r: Run, e: Event, rest: Run, u: nat, m: nat)
    requires |r.states| == |r.log| + 1 && IsRun(rest) && Precedes(Extend(r, e), rest)
    requires u in Last(r).timers && Ends(e, Last(r).timers[u]) && |r.log| <= m < |rest.log|
    ensures rest.log[m] != Fire(u)
  {
    hide Step;
    var i := |r.log|;
    assert rest.states[i] == Extend(r, e).states[i] == Last(r) && rest.log[i] == Extend(r, e).log[i] == e;
    if i < m {
      KillSafety(rest, i, m, u);
    }
  }

  /**
   * A timer that callback k of a Run kills gets no callback in the rest of the Run, nor in any Run after it: from the
   * moment x of the kill on its number is not called.
   */
  lemma KilledInCallback(s: Story, v: View, w: View, script: nat -> seq<ClientOp>, delays: nat -> int, room: nat,
                         k: nat, j: nat, rest: Run)
    returns (x: View)
    requires Tells(s, v, w, script, delays, room) && |v.run.states| > 0 && k < Count(s.moves) && j < |script(k)|
    requires script(k)[j].KillTimerOp? && IsRun(rest) && Precedes(w.run, rest)
    ensures Made(v, x, k + 1) && Precedes(x.run, rest)
    ensures var n, id := script(k)[j].node, script(k)[j].id;
            Lives(x, n) && (n, id) in Last(x.run).owner ==>
              forall m :: |x.run.log| <= m < |rest.log| ==> rest.log[m] != Fire(Last(x.run).owner[(n, id)])
  {
    hide Does, Sound, FireCount, Count, Extend, Tells, Lives, Ends;
    var _, _, views, _ := CallbackIsMade(s, v, w, script, delays, room, k);
    x := views[j];
    var n, id := script(k)[j].node, script(k)[j].id;
    if Lives(x, n) && (n, id) in Last(x.run).owner {
      KillIsLogged(x, views[j + 1], room, n, id);
      forall m | |x.run.log| <= m < |rest.log|
        ensures rest.log[m] != Fire(Last(x.run).owner[(n, id)])
      {
        EndedForGood(x.run, Kill(n, id), rest, Last(x.run).owner[(n, id)], m);
      }
    }
  }
}
