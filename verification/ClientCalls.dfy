// What each call a client can make does, on values: to the history of the calendar, to the ledger of cells, and to the
// clock.

module ClientCalls {
  import opened TimerElements
  import opened Calendar
  import opened TimerLedger
  import opened VirtualClock
  import opened CalendarLaws
  import Cron = CronFields
  import NextInstant

  /**
   * What a client, or the body of a callback, may do next.  `now` is the OS tick count it would read, `cur` what
   * time(0) would answer.
   */
  datatype ClientOp =
    | SetTimerOp(node: nat, id: u64, period: u64, first: u64, exact: bool, now: u32)
    | SetTimerCronOp(node: nat, id: u64, expr: string, cur: int, now: u32)
    | KillTimerOp(node: nat, id: u64)
    | KillTimersOp(node: nat)
    | NewNodeOp
    | CopyFromOp(node: nat, src: nat)
    | EndNodeOp(node: nat)
    | SetSpeedOp(speed: u32)

  datatype TimerSetting = TimerSetting(node: nat, id: u64, period: u64, exact: bool, cron: bool, ahead: int)

  /** The history r, then a reading of the clock, then a timer set to fire `ahead` of that reading. */
  function Armed(r: Run, passed: nat, e: TimerSetting): Run
    requires |r.states| > 0
  {
    var ticked := Extend(r, Sample(passed));
    Extend(ticked, Set(e.node, e.id, e.period, e.exact, e.cron, (Last(ticked).boot + e.ahead) % TWO64))
  }

  lemma AddDelay(x: nat, y: int)
    ensures (x % TWO64 + y) % TWO64 == (x + y) % TWO64
  {
  }

  function FireCount(log: seq<Event>): nat {
    if log == [] then 0
    else FireCount(log[..|log| - 1]) + if log[|log| - 1].Fire? then 1 else 0
  }

  lemma FireCountExtends(r: Run, e: Event)
    requires |r.states| > 0
    ensures FireCount(Extend(r, e).log) == FireCount(r.log) + if e.Fire? then 1 else 0
    ensures Precedes(r, Extend(r, e)) && |Extend(r, e).states| > 0 && Last(Extend(r, e)) == Step(Last(r), e)
  {
    assert Extend(r, e).log[..|r.log|] == r.log;
  }

  /** What client calls act on: the history, the ledger, the cells lost for good, the clock's last reading and speed. */
  datatype View = View(run: Run, ledger: Ledger, leaked: set<TimerElement>, ticks: u32, speed: u32)

  /** How many cells are in use. */
  ghost function Cells(v: View): nat {
    |v.ledger.used| + |v.leaked|
  }

  ghost predicate Lives(v: View, n: nat) {
    n < |v.ledger.maps| && n < |v.ledger.alive| && v.ledger.alive[n]
  }

  /** From v to w there was no callback, the tick went on, and no timer moved to another cell. */
  ghost predicate GoesOn(v: View, w: View) {
    && |v.run.states| > 0 && |w.run.states| > 0 && Precedes(v.run, w.run)
    && FireCount(w.run.log) == FireCount(v.run.log)
    && Last(w.run).tick == Last(v.run).tick && Last(w.run).target == Last(v.run).target
    && Last(w.run).phase == Last(v.run).phase
    && forall u :: u in v.ledger.elem ==> u in w.ledger.elem && w.ledger.elem[u] == v.ledger.elem[u]
  }

  lemma GoesOnAgain(u: View, v: View, w: View)
    requires GoesOn(u, v) && GoesOn(v, w)
    ensures GoesOn(u, w) && |u.run.states| > 0 && |w.run.states| > 0 && Last(w.run).phase == Last(u.run).phase
  {
  }

  lemma GoesNowhere(v: View)
    requires |v.run.states| > 0
    ensures GoesOn(v, v)
  {
  }

  lemma GoesIdle(v: View, w: View)
    requires |v.run.states| > 0 && w.run == v.run && w.ledger.elem == v.ledger.elem
    ensures GoesOn(v, w)
  {
  }

  /** One event, not a callback, that keeps the clock, and perhaps a new cell. */
  lemma GoesOneOn(v: View, w: View, e: Event)
    requires |v.run.states| > 0 && w.run == Extend(v.run, e) && !e.Fire?
    requires Last(w.run).tick == Last(v.run).tick && Last(w.run).target == Last(v.run).target
    requires Last(w.run).phase == Last(v.run).phase
    requires forall u :: u in v.ledger.elem ==> u in w.ledger.elem && w.ledger.elem[u] == v.ledger.elem[u]
    ensures GoesOn(v, w) && |w.run.states| > 0
  {
    hide Step;
    FireCountExtends(v.run, e);
  }

  /** From v to w there were n callbacks, and the tick went on. */
  ghost predicate Advances(v: View, w: View, n: nat)
    ensures Advances(v, w, n) ==> |w.run.states| > 0
  {
    && |v.run.states| > 0 && |w.run.states| > 0 && Precedes(v.run, w.run)
    && FireCount(w.run.log) == FireCount(v.run.log) + n
    && Last(w.run).tick == Last(v.run).tick && Last(w.run).target == Last(v.run).target
  }

  lemma AdvancesOn(u: View, v: View, w: View, m: nat, n: nat)
    requires Advances(u, v, m) && Advances(v, w, n)
    ensures Advances(u, w, m + n)
  {
    hide FireCount;
  }

  lemma AdvancesByOne(v: View, w: View, e: Event)
    requires |v.run.states| > 0 && w.run == Extend(v.run, e)
    requires Last(w.run).tick == Last(v.run).tick && Last(w.run).target == Last(v.run).target
    ensures Advances(v, w, if e.Fire? then 1 else 0)
  {
    hide Step;
    FireCountExtends(v.run, e);
  }

  lemma GoingOnAdvances(v: View, w: View)
    requires GoesOn(v, w)
    ensures Advances(v, w, 0)
  {
  }

  /** From v to w the history goes on to r; the clock is left alone, and no cell is lost. */
  ghost predicate Only(v: View, w: View, r: Run) {
    w.run == r && w.leaked == v.leaked && w.ticks == v.ticks && w.speed == v.speed
  }

  /** The call sets a timer, unless all room cells are in use. */
  ghost predicate Arms(v: View, w: View, room: nat, now: u32, e: TimerSetting) {
    |v.run.states| > 0
    && if Cells(v) == room then w == v
       else && w.run == Armed(v.run, Passed(v.ticks, now, v.speed), e) && w.ticks == now && w.speed == v.speed
            && w.leaked == v.leaked
  }

  /** One cell more is in use that no list, map or incarnation knows, and nothing else changes. */
  ghost predicate Leaks(v: View, w: View) {
    exists e :: e in w.leaked && e !in v.leaked && e !in v.ledger.used && w == v.(leaked := v.leaked + {e})
  }

  lemma ALeak(v: View, w: View, e: TimerElement)
    requires e !in v.leaked && e !in v.ledger.used && w == v.(leaked := v.leaked + {e})
    ensures Leaks(v, w)
  {
  }

  /** The call sets a timer by the answer of the cron engine, or loses a cell because it threw. */
  ghost predicate ArmsAnswered(v: View, w: View, room: nat, n: nat, id: u64, now: u32, answer: Cron.Result<int>) {
    if answer.Err? then Leaks(v, w)
    else Arms(v, w, room, now, TimerSetting(n, id, 0, false, true, answer.value * 1000))
  }

  /** SetTimerCron on a text; an empty one changes nothing, and without a free cell none does. */
  ghost predicate ArmsCron(v: View, w: View, room: nat, n: nat, id: u64, expr: string, cur: int, now: u32) {
    if expr == "" || Cells(v) == room then w == v
    else exists answer :: Cron.Answers(expr, cur, answer) && ArmsAnswered(v, w, room, n, id, now, answer)
  }

  lemma NoCronCall(v: View, room: nat, n: nat, id: u64, expr: string, cur: int, now: u32)
    requires |v.run.states| > 0
    ensures expr == "" || Cells(v) == room ==> ArmsCron(v, v, room, n, id, expr, cur, now)
  {
  }

  lemma ACronCall(v: View, w: View, room: nat, n: nat, id: u64, expr: string, cur: int, now: u32,
                  answer: Cron.Result<int>)
    requires expr != "" && Cells(v) != room
    requires Cron.Answers(expr, cur, answer) && ArmsAnswered(v, w, room, n, id, now, answer)
    ensures ArmsCron(v, w, room, n, id, expr, cur, now)
  {
  }

  /** What the call op makes of v, when there are room cells in all. */
  ghost predicate Does(op: ClientOp, v: View, w: View, room: nat) {
    |v.run.states| > 0
    && match op
       case SetTimerOp(n, id, period, first, exact, now) =>
         if Lives(v, n) then Arms(v, w, room, now, TimerSetting(n, id, period, exact, false, first)) else w == v
       case SetTimerCronOp(n, id, expr, cur, now) =>
         if Lives(v, n) then ArmsCron(v, w, room, n, id, expr, cur, now) else w == v
       case KillTimerOp(n, id) =>
         if Lives(v, n) && id in v.ledger.maps[n] then Only(v, w, Extend(v.run, Kill(n, id))) else w == v
       case KillTimersOp(n) =>
         if Lives(v, n) then Only(v, w, Extend(v.run, KillAll(n))) else w == v
       case EndNodeOp(n) =>
         if Lives(v, n) then Only(v, w, Extend(v.run, Destroy(n))) else w == v
       case CopyFromOp(n, src) =>
         if Lives(v, n) && Lives(v, src) then exists order :: Copies(v, w, n, src, order, room) else w == v
       case NewNodeOp =>
         w == v.(ledger := v.ledger.(maps := v.ledger.maps + [map[]], alive := v.ledger.alive + [true]))
       case SetSpeedOp(speed) => w == v.(speed := speed)
  }

  /** The call, made in state v, is one that loses a cell: SetTimerCron with a free cell and a text it cannot read. */
  ghost predicate LosesCell(op: ClientOp, v: View, room: nat) {
    && op.SetTimerCronOp? && Lives(v, op.node) && Cells(v) != room
    && op.expr != "" && !Cron.Reads(op.expr)
  }

  /** No cron engine is asked at the edge of time. */
  predicate Timely(op: ClientOp) {
    op.SetTimerCronOp? ==> NextInstant.InTime(op.cur)
  }

  lemma NewNodeDone(v: View, w: View, room: nat)
    requires |v.run.states| > 0
    requires w == v.(ledger := v.ledger.(maps := v.ledger.maps + [map[]], alive := v.ledger.alive + [true]))
    ensures Does(NewNodeOp, v, w, room)
  {
  }

  /** No other call loses one. */
  lemma LeaksExactly(op: ClientOp, v: View, w: View, room: nat)
    requires Does(op, v, w, room)
    ensures LosesCell(op, v, room) ==> Leaks(v, w)
    ensures Timely(op) && !LosesCell(op, v, room) ==> w.leaked == v.leaked
    ensures !op.SetTimerCronOp? ==> w.leaked == v.leaked
  {
    hide Cron.Reads, Cron.FromText, NextInstant.InTime, Armed, Extend, Copied;
  }

  /** "x" is such a text. */
  lemma RejectedText(v: View, w: View, room: nat, n: nat, id: u64, cur: int, now: u32)
    requires Does(SetTimerCronOp(n, id, "x", cur, now), v, w, room) && Lives(v, n) && Cells(v) != room
    ensures Leaks(v, w) && Cells(w) == Cells(v) + 1 && w.run == v.run && w.ledger == v.ledger
  {
    hide Does, Cron.Reads;
    Cron.NoSpaceNoReading("x");
    LeaksExactly(SetTimerCronOp(n, id, "x", cur, now), v, w, room);
  }

  /** A call that is given no text but readable ones. */
  predicate Careful(op: ClientOp) {
    Timely(op) && (op.SetTimerCronOp? && op.expr != "" ==> Cron.Reads(op.expr))
  }

  /** The history is one of the calendar's, and the ledger agrees with where it has come to. */
  ghost predicate Sound(v: View) {
    IsRun(v.run) && |v.run.states| > 0 && Consistent(Last(v.run), v.ledger)
  }

  /** views[i] to views[i + 1] is what ops[i] does. */
  ghost predicate Performs(ops: seq<ClientOp>, views: seq<View>, room: nat) {
    && |views| == |ops| + 1 && (forall v :: v in views ==> Sound(v))
    && forall i :: 0 <= i < |ops| ==> Does(ops[i], views[i], views[i + 1], room)
  }

  lemma {:induction false} CarefulCallsKeep(ops: seq<ClientOp>, views: seq<View>, room: nat, n: nat)
    requires Performs(ops, views, room) && n <= |ops| && forall op :: op in ops ==> Careful(op)
    ensures views[n].leaked == views[0].leaked
  {
    hide Does, Sound, Cron.Reads, NextInstant.InTime;
    if n > 0 {
      CarefulCallsKeep(ops, views, room, n - 1);
      assert Careful(ops[n - 1]);
      LeaksExactly(ops[n - 1], views[n - 1], views[n], room);
    }
  }

  /** From v to w a killed timer was dropped. */
  ghost predicate Drops(v: View, w: View) {
    |v.run.states| > 0 && exists u: nat :: Only(v, w, Extend(v.run, Drop(u)))
  }

  lemma ADrop(v: View, w: View, u: nat)
    requires |v.run.states| > 0 && Only(v, w, Extend(v.run, Drop(u)))
    ensures Drops(v, w)
  {
  }

  /** From v to w a timer fired, its callback did ops, and it returned with the given delay. */
  ghost predicate Calls(v: View, w: View, ops: seq<ClientOp>, views: seq<View>, delay: int, room: nat) {
    && |v.run.states| > 0 && Performs(ops, views, room)
    && (exists u: nat :: Only(v, views[0], Extend(v.run, Fire(u))))
    && |views[|ops|].run.states| > 0 && Only(views[|ops|], w, Extend(views[|ops|].run, Return(delay)))
  }

  lemma ACall(v: View, w: View, u: nat, ops: seq<ClientOp>, views: seq<View>, delay: int, room: nat)
    requires |v.run.states| > 0 && |views| == |ops| + 1 && Performs(ops, views, room)
    requires Only(v, views[0], Extend(v.run, Fire(u)))
    requires |views[|ops|].run.states| > 0 && Only(views[|ops|], w, Extend(views[|ops|].run, Return(delay)))
    ensures Calls(v, w, ops, views, delay, room)
  {
    hide Extend, Only;
  }

  lemma CarefulCallbackKeeps(v: View, w: View, ops: seq<ClientOp>, views: seq<View>, delay: int, room: nat)
    requires Calls(v, w, ops, views, delay, room) && forall op :: op in ops ==> Careful(op)
    ensures w.leaked == v.leaked
  {
    hide Performs, Careful, Extend;
    CarefulCallsKeep(ops, views, room, |ops|);
  }

  lemma RoundKeeps(v: View, w: View, called: bool, ops: seq<ClientOp>, views: seq<View>, delay: int, room: nat)
    requires if called then Calls(v, w, ops, views, delay, room) else Drops(v, w)
    ensures !called || (forall op :: op in ops ==> Careful(op)) ==> w.leaked == v.leaked
  {
    hide Calls, Careful, Extend;
    if called && forall op :: op in ops ==> Careful(op) {
      CarefulCallbackKeeps(v, w, ops, views, delay, room);
    }
  }

  // ----- what a Run does

  /** What happens in a Run once the clock has been read. */
  datatype Move = TickBegins | Dropped | Called(views: seq<View>) | TickEnds

  /** What a client sees before the first of the moves and after each. */
  datatype Story = Story(trace: seq<View>, moves: seq<Move>)

  function Count(moves: seq<Move>): nat {
    if moves == [] then 0
    else Count(moves[..|moves| - 1]) + if moves[|moves| - 1].Called? then 1 else 0
  }

  /** The move after k callbacks: a tick begins or ends, a killed timer is dropped, or the script says what is done. */
  ghost predicate Moved(v: View, w: View, m: Move, script: nat -> seq<ClientOp>, delays: nat -> int, k: nat, room: nat)
  {
    |v.run.states| > 0
    && match m
       case TickBegins => Only(v, w, Extend(v.run, BeginTick))
       case Dropped => Drops(v, w)
       case Called(views) => Calls(v, w, script(k), views, delays(k), room)
       case TickEnds => Only(v, w, Extend(v.run, EndTick))
  }

  /** The moves of s lead from v to w; script and delays are asked for the callbacks 0, 1, 2 and so on. */
  ghost predicate Tells(s: Story, v: View, w: View, script: nat -> seq<ClientOp>, delays: nat -> int, room: nat) {
    && |s.trace| == |s.moves| + 1 && s.trace[0] == v && s.trace[|s.moves|] == w
    && forall i :: 0 <= i < |s.moves| ==>
         Moved(s.trace[i], s.trace[i + 1], s.moves[i], script, delays, Count(s.moves[..i]), room)
  }

  /** The beginning of a Run: the clock is read, at the speed it has. */
  ghost predicate Started(v: View, w: View, now: u32) {
    |v.run.states| > 0
    && w == v.(run := Extend(v.run, StartRun(Passed(v.ticks, now, v.speed))), ticks := now)
  }

  lemma NothingTold(v: View, script: nat -> seq<ClientOp>, delays: nat -> int, room: nat)
    ensures Tells(Story([v], []), v, v, script, delays, room) && Count([]) == 0
  {
  }

  function Longer(s: Story, w: View, m: Move): Story {
    Story(s.trace + [w], s.moves + [m])
  }

  lemma OneMoved(s: Story, v: View, w: View, x: View, m: Move, script: nat -> seq<ClientOp>, delays: nat -> int,
                 room: nat)
    requires Tells(s, v, w, script, delays, room) && Moved(w, x, m, script, delays, Count(s.moves), room)
    ensures Tells(Longer(s, x, m), v, x, script, delays, room)
    ensures Count(Longer(s, x, m).moves) == Count(s.moves) + if m.Called? then 1 else 0
  {
    hide Moved, Count;
    var t := Longer(s, x, m);
    forall i | 0 <= i < |t.moves|
      ensures Moved(t.trace[i], t.trace[i + 1], t.moves[i], script, delays, Count(t.moves[..i]), room)
    {
      assert t.moves[..i] == s.moves[..i];
      assert s.moves[..|s.moves|] == s.moves;
    }
    CountOn(s.moves, m);
  }

  lemma CountOn(moves: seq<Move>, m: Move)
    ensures Count(moves + [m]) == Count(moves) + if m.Called? then 1 else 0
  {
    assert (moves + [m])[..|moves|] == moves;
  }

  /** The callbacks of a script make no careless call. */
  ghost predicate CarefulScript(script: nat -> seq<ClientOp>) {
    forall i: nat, op :: op in script(i) ==> Careful(op)
  }

  /** The timers of a node, by id. */
  ghost function TimersOf(l: Ledger, n: nat): map<u64, Timer>
    requires n < |l.maps|
  {
    map id | id in l.maps[n] && l.maps[n][id] in l.records :: l.records[l.maps[n][id]].timer
  }

  /** The history r, then a timer set on node n for each id of order, like the one twins has under it. */
  ghost function Copied(r: Run, n: nat, twins: map<u64, Timer>, order: seq<u64>): (s: Run)
    requires |r.states| > 0 && forall id :: id in order ==> id in twins
    ensures |s.states| > 0
  {
    if order == [] then r
    else
      var k := |order| - 1;
      var t := twins[order[k]];
      Extend(Copied(r, n, twins, order[..k]), Set(n, order[k], t.period, t.exact, t.cron, t.next))
  }

  /** Each timer of src is copied to n once, in some order, for as long as there are cells. */
  ghost predicate Copies(v: View, w: View, n: nat, src: nat, order: seq<u64>, room: nat) {
    && |v.run.states| > 0 && src < |v.ledger.maps|
    && (forall id :: id in order ==> id in TimersOf(v.ledger, src))
    && (forall i, j :: 0 <= i < j < |order| ==> order[i] != order[j])
    && (|order| == |v.ledger.maps[src]| || Cells(v) + |order| == room)
    && Only(v, w, Copied(v.run, n, TimersOf(v.ledger, src), order))
  }

  /** CopyFrom has come from v to w: it copied the ids of order, and those of todo are still to come. */
  ghost predicate CopiedSoFar(v: View, w: View, n: nat, twins: map<u64, Timer>, order: seq<u64>, todo: set<u64>,
                              room: nat)
  {
    && |v.run.states| > 0 && todo <= twins.Keys
    && (forall id :: id in order ==> id in twins && id !in todo)
    && (forall i, j :: 0 <= i < j < |order| ==> order[i] != order[j])
    && |w.ledger.used| == |v.ledger.used| + |order|
    && (|order| + |todo| == |twins| || Cells(w) == room)
    && Only(v, w, Copied(v.run, n, twins, order))
  }

  lemma NoneCopied(v: View, n: nat, twins: map<u64, Timer>, room: nat)
    requires |v.run.states| > 0
    ensures CopiedSoFar(v, v, n, twins, [], twins.Keys, room)
  {
  }

  lemma OneCopied(v: View, w: View, x: View, n: nat, twins: map<u64, Timer>, order: seq<u64>, todo: set<u64>, id: u64,
                  copied: bool, room: nat)
    requires CopiedSoFar(v, w, n, twins, order, todo, room) && id in todo
    requires x.ticks == w.ticks && x.speed == w.speed && x.leaked == w.leaked && (copied <==> Cells(w) != room)
    requires !copied ==> x == w
    requires copied ==>
      && |w.run.states| > 0 && |x.ledger.used| == |w.ledger.used| + 1
      && x.run == Extend(w.run, Set(n, id, twins[id].period, twins[id].exact, twins[id].cron, twins[id].next))
    ensures CopiedSoFar(v, x, n, twins, if copied then order + [id] else order, todo - {id}, room)
  {
    hide Extend;
    assert |todo - {id}| == |todo| - 1;
    if copied {
      assert (order + [id])[..|order|] == order;
    }
  }

  lemma AllCopied(v: View, w: View, n: nat, src: nat, order: seq<u64>, room: nat)
    requires src < |v.ledger.maps| && TimersOf(v.ledger, src).Keys == v.ledger.maps[src].Keys
    requires CopiedSoFar(v, w, n, TimersOf(v.ledger, src), order, {}, room)
    ensures Copies(v, w, n, src, order, room)
  {
    hide TimersOf;
    assert |TimersOf(v.ledger, src).Keys| == |v.ledger.maps[src].Keys|;
  }
}
