// CDMTimerModule and CDMTimerNode.  The module keeps, beside its real state, the history of the flat
// calendar it stands for; every operation appends to that history the events it performed.

module TimerSystem {
  import opened TimerElements
  import opened DmList
  import opened Wheel
  import opened Calendar
  import opened TimerLists
  import opened TimerWheel
  import opened RapidPool
  import opened DynamicPool
  import opened TimerLedger
  import opened VirtualClock
  import opened ClockBook
  import opened CalendarLaws
  import opened ClientCalls
  import opened StepFacts
  import Cron = CronFields
  import NextInstant

  const MAX_POOL_S: nat := 50000
  const MAX_POOL_I: nat := 1000

  class TimerNode {
    const num: nat
    // m_oTimerElementMap
    var timers: map<u64, TimerElement>
    var alive: bool

    constructor (n: nat)
      ensures num == n && timers == map[] && alive
    {
      num, timers, alive := n, map[], true;
    }

    /** The loop of KillTimer(): erases every mapped element. */
    method KillMapped()
      modifies timers.Values`erased
      ensures forall e :: e in timers.Values ==> e.erased
    {
      var todo := timers.Keys;
      while todo != {}
        invariant todo <= timers.Keys
        invariant forall id :: id in timers && id !in todo ==> timers[id].erased
        decreases |todo|
      {
        var id :| id in todo;
        timers[id].Kill();
        todo := todo - {id};
      }
    }

    /**
     * SetTimer: fetches a cell, fills it in, links it at boot time + qwFirst, and replaces whatever the id
     * meant.  SetTimerLambda does the same.  The only failure is that all cells are in use.
     */
    method SetTimer(m: TimerModule, qwIDEvent: u64, qwCD: u64, qwFirst: u64, bExact: bool, now: u32) returns (ok: bool)
      requires m.Valid() && m.Callable(this)
      modifies m, m.repr, m.pool.repr
      ensures m.Valid() && m.Callable(this) && m.Continues() && m.Grows()
      ensures ok <==> Cells(old(m.Seen())) != m.Room()
      ensures Arms(old(m.Seen()), m.Seen(), m.Room(), now, TimerSetting(num, qwIDEvent, qwCD, bExact, false, qwFirst))
      ensures ok ==> qwIDEvent in timers && timers == old(timers)[qwIDEvent := timers[qwIDEvent]]
    {
      hide TimerModule.Core, FireCount, Step, Extend, Armed;
      m.Places();
      assert this in m.nodes;
      var e := m.FetchElement();
      if e == null {
        return false;
      }
      m.Fill(e, num, qwIDEvent, qwCD, bExact, false);
      m.Schedule(e, this, qwFirst, now);
      return true;
    }

    /** The map entry goes and its element is erased. */
    method UnmapMirrored(m: TimerModule, id: u64, ghost l: Ledger)
      requires m.CellsMirror(l) && m.NodesMirror(l) && num < |m.nodes| && m.nodes[num] == this && id in timers
      requires l.records.Keys == l.used && timers[id] in l.used
      modifies `timers, l.used`erased
      ensures m.CellsMirror(AfterKill(l, num, id)) && m.NodesMirror(AfterKill(l, num, id))
      ensures timers == old(timers) - {id}
    {
      hide AfterKill, TimerModule.CellData;
      AfterKillParts(l, num, id);
      timers[id].Kill();
      timers := timers - {id};
    }

    /** KillTimer: an id the node does not know is ignored. */
    method KillTimer(m: TimerModule, qwIDEvent: u64)
      requires m.Valid() && m.Callable(this)
      modifies m, m.repr, m.pool.repr
      ensures m.Valid() && m.Callable(this) && m.Continues() && m.Grows()
      ensures if qwIDEvent in old(timers) then Only(old(m.Seen()), m.Seen(), Extend(old(m.run), Kill(num, qwIDEvent)))
              else m.Seen() == old(m.Seen())
      ensures timers == old(timers) - {qwIDEvent}
    {
      hide GrowingPool.Valid, WheelState.Valid, Lists.Valid, Consistent, IsRun, FireCount, Step, Extend, AfterKill;
      hide TimerModule.ReprOk, TimerModule.CellsMirror, TimerModule.NodesMirror;
      if qwIDEvent !in timers {
        return;
      }
      m.NodeFacts(this);
      m.Reach(m.ledger.used, m.ledger.linked);
      m.Separate();
      KillFacts(m.Cal(), m.ledger, num, qwIDEvent);
      FireCountExtends(m.run, Kill(num, qwIDEvent));
      ghost var l := m.ledger;
      UnmapMirrored(m, qwIDEvent, l);
      m.Commit(Kill(num, qwIDEvent), AfterKill(l, num, qwIDEvent));
    }

    /** The loop of KillTimer(), after which the cells say what the ledger will record of them. */
    method EraseMirrored(m: TimerModule, ghost l: Ledger)
      requires m.CellsMirror(l) && l.records.Keys == l.used && num < |l.maps| && timers == l.maps[num]
      requires forall e :: e in timers.Values ==> e in l.used
      modifies l.used`erased
      ensures m.CellsMirror(AfterKillAll(l, num))
    {
      hide AfterKillAll, TimerModule.CellData;
      AllErased(l, num);
      KillMapped();
    }

    /** The loop of KillTimer() and the clearing of the map; for a destructor the node then ends. */
    method ClearMirrored(m: TimerModule, stays: bool, ghost l: Ledger)
      requires m.CellsMirror(l) && m.NodesMirror(l) && num < |m.nodes| && m.nodes[num] == this
      requires l.records.Keys == l.used && forall e :: e in timers.Values ==> e in l.used
      modifies `timers, `alive, l.used`erased
      ensures stays ==>
        alive == old(alive) && m.CellsMirror(AfterKillAll(l, num)) && m.NodesMirror(AfterKillAll(l, num))
      ensures !stays ==> m.CellsMirror(AfterDestroy(l, num)) && m.NodesMirror(AfterDestroy(l, num))
      ensures timers == map[]
    {
      hide AfterKillAll, AfterDestroy, TimerModule.CellsMirror;
      AfterKillAllParts(l, num);
      EraseMirrored(m, l);
      timers := map[];
      if !stays {
        alive := false;
        m.CellsSame(AfterKillAll(l, num), AfterDestroy(l, num));
      }
    }

    /** KillTimer() on all ids. */
    method KillTimers(m: TimerModule)
      requires m.Valid() && m.Callable(this)
      modifies m, m.repr, m.pool.repr
      ensures m.Valid() && m.Callable(this) && m.Continues() && m.Grows()
      ensures Only(old(m.Seen()), m.Seen(), Extend(old(m.run), KillAll(num))) && timers == map[]
    {
      hide GrowingPool.Valid, WheelState.Valid, Lists.Valid, Consistent, IsRun, FireCount, Step, Extend, AfterKillAll;
      hide TimerModule.ReprOk, TimerModule.CellsMirror, TimerModule.NodesMirror;
      m.NodeFacts(this);
      m.Reach(m.ledger.used, m.ledger.linked);
      m.Separate();
      KillAllFacts(m.Cal(), m.ledger, num);
      FireCountExtends(m.run, KillAll(num));
      ghost var l := m.ledger;
      ClearMirrored(m, true, l);
      m.Commit(KillAll(num), AfterKillAll(l, num));
    }

    /** The destructor. */
    method End(m: TimerModule)
      requires m.Valid() && m.Callable(this)
      modifies m, m.repr, m.pool.repr
      ensures m.Valid() && m.Continues() && m.Grows()
      ensures Only(old(m.Seen()), m.Seen(), Extend(old(m.run), Destroy(num))) && timers == map[] && !alive
    {
      hide GrowingPool.Valid, WheelState.Valid, Lists.Valid, Consistent, IsRun, FireCount, Step, Extend;
      hide AfterDestroy, AfterKillAll;
      hide TimerModule.ReprOk, TimerModule.CellsMirror, TimerModule.NodesMirror;
      m.NodeFacts(this);
      m.Reach(m.ledger.used, m.ledger.linked);
      m.Separate();
      DestroyFacts(m.Cal(), m.ledger, num);
      FireCountExtends(m.run, Destroy(num));
      ghost var l := m.ledger;
      ClearMirrored(m, false, l);
      m.Commit(Destroy(num), AfterDestroy(l, num));
      m.DeadNode(this);
    }

    /**
     * SetTimerCron: like SetTimer, with the delay in seconds that the cron engine answers.  If the engine throws,
     * the cell that was fetched first is lost.
     */
    method SetTimerCron(m: TimerModule, qwIDEvent: u64, strCron: string, cur: int, now: u32)
      returns (ok: bool, threw: bool)
      requires m.Valid() && m.Callable(this)
      modifies m, m.repr, m.pool.repr
      ensures m.Valid() && m.Callable(this) && m.Continues() && m.Grows()
      ensures ArmsCron(old(m.Seen()), m.Seen(), m.Room(), num, qwIDEvent, strCron, cur, now)
      ensures ok <==> strCron != "" && Cells(old(m.Seen())) != m.Room() && !threw
      ensures if threw then Leaks(old(m.Seen()), m.Seen()) else m.leaked == old(m.leaked)
      ensures strCron != "" && Cells(old(m.Seen())) != m.Room() && !Cron.Reads(strCron) ==> threw
      ensures threw ==> strCron != "" && Cells(old(m.Seen())) != m.Room()
                        && (Cron.Reads(strCron) ==> !NextInstant.InTime(cur))
    {
      hide TimerModule.Core, FireCount, Step, Extend, ArmsCron, Leaks, Cells, GoesOn, Cron.Reads, NextInstant.InTime;
      ok, threw := false, false;
      GoesNowhere(m.Seen());
      NoCronCall(m.Seen(), m.Room(), num, qwIDEvent, strCron, cur, now);
      if strCron == "" {
        return;
      }
      m.Places();
      assert this in m.nodes;
      var e := m.FetchElement();
      if e == null {
        return;
      }
      threw := m.ScheduleCron(e, this, qwIDEvent, strCron, cur, now);
      ok := !threw;
    }

    /**
     * CopyFrom: every timer of src gets a twin here, due when the original is next due, under the same id.
     * In which order the ids come up does not matter.
     */
    method CopyFrom(m: TimerModule, src: TimerNode) returns (ghost order: seq<u64>)
      requires m.Valid() && m.Callable(this) && m.Callable(src)
      modifies m, m.repr, m.pool.repr
      ensures m.Valid() && m.Callable(this) && m.Continues() && m.Grows()
      ensures Copies(old(m.Seen()), m.Seen(), num, src.num, order, m.Room())
    {
      hide TimerModule.Core, FireCount, TimersOf, GoesOn, Extend, TimerModule.Twins, Lists.Local, Copied, CopiedSoFar;
      m.Places();
      GoesNowhere(m.Seen());
      m.AllMapped(src);
      ghost var v, twins := m.Seen(), TimersOf(m.ledger, src.num);
      order := [];
      var todo := src.timers.Keys;
      NoneCopied(v, num, twins, m.Room());
      while todo != {}
        invariant m.Valid() && m.Callable(this) && m.Callable(src) && m.Continues() && m.Grows()
        invariant m.Twins(src, twins, todo)
        invariant CopiedSoFar(v, m.Seen(), num, twins, order, todo, m.Room())
        decreases |todo|
      {
        var id :| id in todo;
        ghost var w := m.Seen();
        var copied := CopyOne(m, src, id, twins, todo);
        GoesOnAgain(v, w, m.Seen());
        OneCopied(v, w, m.Seen(), num, twins, order, todo, id, copied, m.Room());
        todo := todo - {id};
        order := if copied then order + [id] else order;
      }
      AllCopied(v, m.Seen(), num, src.num, order, m.Room());
    }

    /** One round of its loop; src may be this node itself. */
    method CopyOne(m: TimerModule, src: TimerNode, id: u64, ghost twins: map<u64, Timer>, ghost todo: set<u64>)
      returns (copied: bool)
      requires m.Valid() && m.Callable(this) && m.Callable(src) && id in todo && m.Twins(src, twins, todo)
      modifies m, m.repr, m.pool.repr
      ensures m.Valid() && m.Callable(this) && m.Callable(src) && m.Continues() && m.Grows()
      ensures m.Twins(src, twins, todo - {id})
      ensures m.dwTickCount == old(m.dwTickCount) && m.dwSpeed == old(m.dwSpeed)
      ensures copied <==> Cells(old(m.Seen())) != m.Room()
      ensures !copied ==> m.run == old(m.run) && m.ledger == old(m.ledger)
      ensures m.leaked == old(m.leaked)
      ensures copied ==> |m.ledger.used| == |old(m.ledger.used)| + 1
      ensures copied ==>
        var t := twins[id];
        m.run == Extend(old(m.run), Set(num, id, t.period, t.exact, t.cron, t.next))
    {
      hide TimerModule.Core, FireCount, Step, Extend;
      m.Places();
      assert this in m.nodes && src in m.nodes;
      m.MappedCellData(src, id);
      copied := m.FetchCopy(src.timers[id], this);
      forall x | x in todo - {id}
        ensures x in src.timers && src.timers[x] == old(src.timers)[x] && m.SameData(src.timers[x])
      {
      }
    }
  }

  /** The history a new module starts with. */
  lemma Fresh(start: nat, now: nat)
    requires start <= now
    ensures var c := State(start, now, now, Idle, map[], map[], {}, 0);
            IsRun(Run([c], [])) && Consistent(c, Ledger({}, {}, map[], map[], [], []))
  {
  }

  class TimerModule {
    const pool: GrowingPool
    const wheel: WheelState
    var qwCurTime: u64
    var dwTickCount: u32
    var qwTotalTickCount: u64
    var dwSpeed: u32

    // every node of the program, at the place of its number
    var nodes: seq<TimerNode>

    ghost var run: Run
    ghost var ledger: Ledger
    // the cells that SetTimerCron fetched before its text was rejected
    ghost var leaked: set<TimerElement>
    // the readings of the OS tick count since Init, and the speeds they were taken at
    ghost var readings: seq<u32>
    ghost var speeds: seq<u32>
    ghost var repr: set<object>

    ghost function Seen(): View
      reads `run, `ledger, `leaked, `dwTickCount, `dwSpeed
    {
      View(run, ledger, leaked, dwTickCount, dwSpeed)
    }

    /** How many cells there can be. */
    ghost function Room(): nat {
      Capacity(pool.S, pool.I + 1)
    }

    ghost function Cal(): State
      requires |run.states| > 0
      reads `run
    {
      Last(run)
    }

    /** repr holds the objects the module may change besides itself and those of the pool. */
    ghost predicate ReprOk()
      reads `repr, `nodes, pool, wheel.lists
    {
      && wheel in repr && wheel.lists in repr
      && (forall h :: h in wheel.lists.heads ==> h in repr && h !in pool.cells)
      && (forall n :: n in nodes ==> n in repr)
    }

    /** The clock fields are those of state c, up to their wrap-around. */
    ghost predicate ClockFits(c: State)
      reads `qwCurTime, `qwTotalTickCount, wheel
    {
      && wheel.tick == c.tick && wheel.dispatching == !c.phase.Idle?
      && qwCurTime == c.target % TWO64
      && qwTotalTickCount == c.boot % TWO64
    }

    /** The history was made with the readings so far. */
    ghost predicate ClockBooked(r: Run)
      reads `readings, `speeds, `dwTickCount
    {
      Booked(r.log, readings, speeds) && readings[|readings| - 1] == dwTickCount
    }

    /** Cell e holds the data of incarnation uid. */
    ghost predicate CellData(e: TimerElement, uid: nat, t: Timer)
      reads e`uid, e`sink, e`qwID, e`qwCD, e`exact, e`cron, e`qwNextTime, e`due
    {
      && e.uid == uid && e.sink == t.node && e.qwID == t.id && e.qwCD == t.period
      && e.exact == t.exact && e.cron == t.cron && e.qwNextTime == t.next && e.due == t.due
    }

    ghost predicate CellSays(e: TimerElement, r: Record)
      reads e`uid, e`sink, e`qwID, e`qwCD, e`exact, e`cron, e`qwNextTime, e`due, e`erased
    {
      CellData(e, r.uid, r.timer) && e.erased == r.erased
    }

    /** The cells in use say what ledger l records of them. */
    ghost predicate CellsMirror(l: Ledger)
      reads l.used`uid, l.used`sink, l.used`qwID, l.used`qwCD, l.used`exact
      reads l.used`cron, l.used`qwNextTime, l.used`due, l.used`erased
    {
      forall e :: e in l.used ==> e in l.records && CellSays(e, l.records[e])
    }

    /** The nodes hold the maps of ledger l. */
    ghost predicate NodesMirror(l: Ledger)
      reads `nodes, nodes
    {
      && |nodes| == |l.maps| == |l.alive|
      && forall n :: 0 <= n < |nodes| ==>
           nodes[n].num == n && nodes[n].timers == l.maps[n] && nodes[n].alive == l.alive[n]
    }

    /** The ledger describes cells and nodes, while u are the cells in use that are not lost, and l the linked ones. */
    ghost predicate Core(u: set<TimerElement>, l: set<TimerElement>)
      reads this, repr, pool, pool.repr, pool.grow, pool.pools
      reads wheel, wheel.lists, wheel.lists.Nodes(), ledger.used, nodes
    {
      && ReprOk() && pool.Valid() && wheel.Valid()
      && IsRun(run) && |run.states| > 0 && ClockFits(Cal()) && ClockBooked(run)
      && pool.used == u + leaked && u !! leaked && wheel.Linked() == l
      && CellsMirror(ledger) && NodesMirror(ledger)
      && Consistent(Cal(), ledger)
    }

    ghost predicate Valid()
      reads this, repr, pool, pool.repr, pool.grow, pool.pools
      reads wheel, wheel.lists, wheel.lists.Nodes(), ledger.used, nodes
    {
      Core(ledger.used, ledger.linked)
    }

    /** Init; t0, t1 and t2 are the OS tick counts it reads. */
    constructor (t0: u32, t1: u32, t2: u32)
      ensures Valid() && Cal().phase.Idle? && run.log == [] && nodes == [] && pool.used == {} && leaked == {}
      ensures Cal().tick == Passed(t0, t1, SPEED_DEFAULT)
      ensures Cal().boot == Cal().target == Cal().tick + Passed(t1, t2, SPEED_DEFAULT)
      ensures dwTickCount == t2 && readings == [t2] && speeds == []
      ensures dwSpeed == SPEED_DEFAULT && Room() == Capacity(MAX_POOL_S, MAX_POOL_I + 1) == 50_050_000
    {
      hide GrowingPool.Valid, WheelState.Valid, Lists.Valid, Consistent, IsRun;
      pool := new GrowingPool(MAX_POOL_S, MAX_POOL_I);
      var start := Passed(t0, t1, SPEED_DEFAULT);
      var more := Passed(t1, t2, SPEED_DEFAULT);
      wheel := new WheelState(start, start);
      dwSpeed, dwTickCount := SPEED_DEFAULT, t2;
      qwTotalTickCount, qwCurTime := (start + more) % TWO64, (start + more) % TWO64;
      nodes := [];
      run := Calendar.Run.Run([State(start, start + more, start + more, Idle, map[], map[], {}, 0)], []);
      ledger := Ledger({}, {}, map[], map[], [], []);
      leaked := {};
      readings, speeds := [t2], [];
      Fresh(start, start + more);
      new;
      repr := {wheel, wheel.lists} + set h | h in wheel.lists.heads;
    }

    method GetBootTime(dwCurTime: u32) returns (t: u64, ghost passed: nat)
      modifies `dwTickCount, `qwTotalTickCount
      ensures passed == Passed(old(dwTickCount), dwCurTime, dwSpeed) && dwTickCount == dwCurTime
      ensures t == qwTotalTickCount == (old(qwTotalTickCount) + passed) % TWO64
    {
      var dwRealPassedTime: u32 := (dwCurTime - dwTickCount) % TWO32;
      dwTickCount := dwCurTime;
      var qwPassedTime := dwRealPassedTime * dwSpeed / SPEED_DEFAULT;
      passed := qwPassedTime;
      qwTotalTickCount := (qwTotalTickCount + qwPassedTime) % TWO64;
      t := qwTotalTickCount;
    }

    method SetSpeed(speed: u32)
      modifies `dwSpeed
      ensures dwSpeed == speed
    {
      dwSpeed := speed;
    }

    /** FetchElement: a constructed cell that nothing refers to yet, or null when all cells are in use. */
    method FetchElement() returns (e: TimerElement?)
      requires Valid()
      modifies pool.repr
      ensures fresh(pool.repr - old(pool.repr))
      ensures Core(if e == null then ledger.used else ledger.used + {e}, ledger.linked)
      ensures e == null <==> Cells(Seen()) == Room()
      ensures e != null ==> e in pool.cells && e !in ledger.used + leaked && e.IsReset() && e in pool.repr
      ensures SameWheel() && unchanged(this)
      ensures forall n :: n in nodes ==> n.timers == old(n.timers) && n.alive == old(n.alive)
      ensures forall x :: x in old(ledger.used) ==> SameData(x) && x.erased == old(x.erased)
    {
      hide GrowingPool.Valid, WheelState.Valid, Lists.Valid, Lists.Nodes, Cells, Core, TimerElement.IsReset, Capacity;
      Untouched();
      e := FetchCell();
      Kept(if e == null then ledger.used else ledger.used + {e});
    }

    /** The pool's part of it, which touches nothing else. */
    method FetchCell() returns (e: TimerElement?)
      requires Valid()
      modifies pool.repr
      ensures pool.Valid() && pool in pool.repr
      ensures fresh(pool.repr - old(pool.repr)) && fresh(pool.cells - old(pool.cells))
      ensures e == null <==> |old(pool.used)| == Room()
      ensures e == null ==> pool.used == old(pool.used)
      ensures e != null ==> e !in old(pool.used) && pool.used == old(pool.used) + {e}
      ensures e != null ==> e in pool.cells && e.IsReset() && e in pool.repr
      ensures unchanged(this) && unchanged(wheel) && unchanged(wheel.lists)
      ensures forall x :: x in wheel.lists.Nodes() || x in ledger.used ==> unchanged(x)
      ensures forall n :: n in nodes ==> n.timers == old(n.timers) && n.alive == old(n.alive)
    {
      hide GrowingPool.Valid, WheelState.Valid, Lists.Valid, Cells, Core, TimerElement.IsReset, Capacity;
      Untouched();
      e := pool.FetchObj();
      pool.Parts();
    }

    /** Nothing but the pool has changed since the module was valid. */
    twostate lemma Kept(new u: set<TimerElement>)
      requires old(Valid())
      requires unchanged(this) && unchanged(wheel) && unchanged(wheel.lists)
      requires forall x :: x in wheel.lists.Nodes() || x in ledger.used ==> unchanged(x)
      requires forall n :: n in nodes ==> n.timers == old(n.timers) && n.alive == old(n.alive)
      requires pool.Valid() && fresh(pool.cells - old(pool.cells)) && pool.used == u + leaked && u !! leaked
      ensures Core(u, ledger.linked)
    {
      hide GrowingPool.Valid, WheelState.Valid, Lists.Valid, Consistent, IsRun, CellsMirror;
      assert wheel.lists.Nodes() == old(wheel.lists.Nodes()) && wheel.Linked() == old(wheel.Linked());
      assert forall x :: x in old(wheel.lists.Nodes()) ==> unchanged(x);
      assert forall x :: x in old(wheel.Linked()) ==> unchanged(x);
    }

    lemma Untouched()
      requires Valid()
      ensures |pool.used| == Cells(Seen()) && ledger.linked <= ledger.used <= pool.used
      ensures wheel.lists.Nodes() !! pool.cells - pool.used && leaked <= pool.used && ledger.used !! leaked
      ensures pool.used == ledger.used + leaked
      ensures this as object != pool && pool as object != wheel && pool as object != wheel.lists && pool in pool.repr
      ensures pool.used <= pool.cells <= pool.repr && pool.Valid() && pool.ReprOk()
      ensures pool.grow as object != wheel.lists && pool.grow as object != wheel && pool.grow as object != this
      ensures forall p :: p in pool.pools ==> p as object != this && p as object != wheel && p as object != wheel.lists
      ensures forall n :: n in nodes ==> n as object != pool && n as object != pool.grow
    {
      hide GrowingPool.Valid, WheelState.Valid, Consistent, IsRun, CellsMirror, NodesMirror;
      LinkedAreUsed(Cal(), ledger);
      pool.Parts();
    }

    /** The wheel's clock, lists and work list are as they were. */
    twostate predicate SameWheel()
      reads wheel, wheel.lists
    {
      unchanged(wheel) && unchanged(wheel.lists)
    }

    /** Objects of different classes are different objects. */
    lemma Separate()
      ensures this as object != wheel && this as object != wheel.lists && this as object != pool
      ensures pool as object != wheel && pool as object != wheel.lists && wheel as object != wheel.lists
      ensures forall e :: e in wheel.lists.Nodes() ==>
                e as object != this && e as object != pool && e as object != wheel && e as object != pool.grow
      ensures forall p :: p in pool.pools ==> p as object != this && p as object != wheel && p as object != wheel.lists
      ensures forall n :: n in nodes ==> n as object != this && n as object != wheel && n as object != wheel.lists
                                         && n as object != pool
      ensures pool.grow as object != wheel.lists && pool.grow as object != wheel && pool.grow as object != this
    {
    }

    /** Where the objects an operation may touch are found. */
    lemma Reach(u: set<TimerElement>, l: set<TimerElement>)
      requires Core(u, l) && ledger.used <= u && l <= ledger.linked
      ensures wheel in repr && wheel.lists in repr && pool in pool.repr
      ensures forall n :: n in nodes ==> n in repr
      ensures forall e :: e in ledger.used || e in l || e in pool.cells ==> e in pool.repr
      ensures forall e :: e in wheel.lists.Nodes() ==> e in repr || e in pool.repr
    {
      hide GrowingPool.Valid, WheelState.Valid, Consistent, IsRun, CellsMirror, NodesMirror;
      LinkedAreUsed(Cal(), ledger);
      pool.Parts();
    }

    lemma FreshUid(u: set<TimerElement>, l: set<TimerElement>)
      requires Core(u, l)
      ensures |run.states| > 0 && Cal().issued !in ledger.elem
    {
      NewUid(Cal(), ledger);
    }

    /** GetBootTime as called when a timer is set. */
    method SampleClock(now: u32, ghost u: set<TimerElement>) returns (t: u64)
      requires Core(u, ledger.linked) && !Cal().phase.Dispatching?
      modifies `dwTickCount, `qwTotalTickCount, `run, `readings, `speeds
      ensures Core(u, ledger.linked) && readings == old(readings) + [now] && speeds == old(speeds) + [dwSpeed]
      ensures run == Extend(old(run), Sample(Passed(old(dwTickCount), now, dwSpeed))) && dwTickCount == now
      ensures t == Cal().boot % TWO64
    {
      hide GrowingPool.Valid, WheelState.Valid, Lists.Valid, Consistent, IsRun, CellsMirror, NodesMirror, ReprOk;
      hide Booked;
      ghost var passed;
      Separate();
      t, passed := GetBootTime(now);
      QuietEventKeeps(Cal(), ledger, Sample(passed));
      ExtendIsRun(run, Sample(passed));
      AddResidue(Cal().boot, passed);
      Book(Sample(passed), now);
      run := Extend(run, Sample(passed));
    }

    /** Notes the reading that event ev is to stand for. */
    ghost method Book(ev: Event, now: u32)
      requires |run.states| > 0 && Booked(run.log, readings, speeds) && IsReading(ev) && dwTickCount == now
      requires ev.passed == Passed(readings[|readings| - 1], now, dwSpeed)
      modifies `readings, `speeds
      ensures readings == old(readings) + [now] && speeds == old(speeds) + [dwSpeed]
      ensures ClockBooked(Extend(run, ev))
    {
      hide Booked, Passed, Extend;
      BookReading(run, ev, readings, speeds, now, dwSpeed);
      readings, speeds := readings + [now], speeds + [dwSpeed];
    }

    /** The clock shows what the readings come to, whatever has been going on, modulo 2^64. */
    lemma ClockIsTotal(ms: seq<nat>)
      requires Valid() && |ms| == |readings| && forall i :: 0 <= i < |ms| ==> readings[i] == ms[i] % TWO32
      ensures |ms| == |speeds| + 1 && |run.states| > 0 && Cal().boot == run.states[0].boot + Total(ms, speeds)
      ensures qwTotalTickCount == (run.states[0].boot + Total(ms, speeds)) % TWO64
    {
      hide GrowingPool.Valid, WheelState.Valid, Consistent, CellsMirror, NodesMirror, ReprOk, Passed, Total, Ticks;
      assert run.log[..|run.log|] == run.log;
      BootIsTotal(run, ms, readings, speeds, |run.log|);
      assert ms[..|ms|] == ms && speeds[..|speeds|] == speeds;
    }

    /** The node may be called: it exists, and no tick is being set up. */
    ghost predicate Callable(node: TimerNode)
      reads this, nodes
    {
      |run.states| > 0 && node.num < |nodes| && nodes[node.num] == node && node.alive && !Cal().phase.Dispatching?
    }

    lemma NodeFacts(node: TimerNode)
      requires |run.states| > 0 && NodesMirror(ledger) && Callable(node)
      ensures node.num < |ledger.maps| == |ledger.alive| && ledger.alive[node.num]
      ensures node.timers == ledger.maps[node.num]
    {
    }

    /** Notes event ev and takes over ledger m, once the real state has become what they say. */
    ghost method Commit(ev: Event, m: Ledger)
      requires ReprOk() && pool.Valid() && wheel.Valid()
      requires IsRun(run) && |run.states| > 0 && Enabled(Cal(), ev) && ClockFits(Step(Cal(), ev))
      requires ClockBooked(if IsReading(ev) then Extend(run, ev) else run)
      requires pool.used == m.used + leaked && m.used !! leaked && wheel.Linked() == m.linked
      requires CellsMirror(m) && NodesMirror(m) && Consistent(Step(Cal(), ev), m)
      modifies `run, `ledger
      ensures Valid() && run == Extend(old(run), ev) && ledger == m && Cal() == Step(old(Cal()), ev)
    {
      hide GrowingPool.Valid, WheelState.Valid, Lists.Valid, Consistent, IsRun, ReprOk, CellsMirror, NodesMirror;
      hide Step, Extend;
      hide Booked;
      Separate();
      ExtendIsRun(run, ev);
      if !IsReading(ev) {
        BookNothing(run, ev, readings, speeds);
      }
      run := Extend(run, ev);
      ledger := m;
    }

    lemma DeadNode(node: TimerNode)
      requires Valid() && node.num < |nodes| && nodes[node.num] == node
      requires node.num < |ledger.alive| && !ledger.alive[node.num]
      ensures !node.alive
    {
    }

    /** AddTimerElement on a filled-in element that the ledger does not know yet. */
    method LinkNew(e: TimerElement)
      requires Core(ledger.used + {e}, ledger.linked) && e in pool.cells && e !in ledger.used
      modifies wheel.lists, wheel.lists.Nodes()`next, wheel.lists.Nodes()`prev, e
      ensures Core(ledger.used + {e}, ledger.linked + {e})
      ensures e.uid == Cal().issued && e.due == DueTick(wheel.tick, wheel.dispatching, e.qwNextTime)
      ensures e.sink == old(e.sink) && e.qwID == old(e.qwID) && e.qwCD == old(e.qwCD)
      ensures e.exact == old(e.exact) && e.cron == old(e.cron) && e.qwNextTime == old(e.qwNextTime)
      ensures e.erased == old(e.erased)
      ensures SameWork()
    {
      hide GrowingPool.Valid, WheelState.Valid, Lists.Valid, Consistent, IsRun, CellsMirror, NodesMirror;
      LinkedAreUsed(Cal(), ledger);
      pool.Parts();
      Separate();
      e.uid := Cal().issued;
      wheel.AddTimerElement(e, 0);
    }

    /** Id, period, expiry and kind of an element are as they were. */
    twostate predicate SameData(x: TimerElement)
      reads x
    {
      x.qwID == old(x.qwID) && x.qwCD == old(x.qwCD) && x.qwNextTime == old(x.qwNextTime)
      && x.exact == old(x.exact) && x.cron == old(x.cron)
    }

    /** The list heads, and during a dispatch the work list, are as they were. */
    twostate predicate SameWork()
      reads wheel, wheel.lists
    {
      && wheel.lists.heads == old(wheel.lists.heads)
      && wheel.lists.Local() == old(wheel.lists.Local())
    }

    /** What SetTimer does to the node's map: the element mapped so far is killed, the new one mapped. */
    method Remap(e: TimerElement, node: TimerNode)
      modifies node`timers, node.timers.Values`erased
      ensures node.timers == old(node.timers)[e.qwID := e]
      ensures forall x :: x in old(node.timers.Values) ==>
                x.erased == (old(x.erased) || (e.qwID in old(node.timers) && x == old(node.timers)[e.qwID]))
    {
      if e.qwID in node.timers {
        node.timers[e.qwID].Kill();
      }
      node.timers := node.timers[e.qwID := e];
    }

    method RemapMirrored(e: TimerElement, node: TimerNode, ghost l: Ledger, ghost r: Record)
      requires CellsMirror(l) && NodesMirror(l) && r.timer.node == node.num < |nodes| && nodes[node.num] == node
      requires l.records.Keys == l.used && e !in l.used && CellSays(e, r) && e.qwID == r.timer.id
      requires forall id :: id in l.maps[node.num] ==> l.maps[node.num][id] in l.used
      modifies node`timers, l.used`erased
      ensures CellsMirror(AfterSet(l, e, r)) && NodesMirror(AfterSet(l, e, r))
      ensures node.timers == old(node.timers)[e.qwID := e]
    {
      hide AfterSet, CellData;
      AfterSetParts(l, e, r);
      assert node.timers == l.maps[node.num];
      Remap(e, node);
    }

    method Enroll(e: TimerElement, node: TimerNode)
      requires Core(ledger.used + {e}, ledger.linked + {e}) && e !in ledger.used && Callable(node)
      requires e.uid == Cal().issued && e.due == DueTick(wheel.tick, wheel.dispatching, e.qwNextTime)
      requires e.sink == node.num && !e.erased
      modifies `run, `ledger, node`timers, ledger.used`erased
      ensures Valid()
      ensures run == Extend(old(run), Set(node.num, e.qwID, e.qwCD, e.exact, e.cron, e.qwNextTime))
      ensures node.timers == old(node.timers)[e.qwID := e]
      ensures ledger.elem == old(ledger.elem)[old(Cal().issued) := e] && ledger.used == old(ledger.used) + {e}
      ensures SameClock(old(Cal()), Cal())
    {
      hide GrowingPool.Valid, WheelState.Valid, Lists.Valid, Consistent, IsRun, ReprOk, DueTick, AfterSet, Step, Extend;
      hide CellsMirror, NodesMirror;
      NodeFacts(node);
      ghost var l := ledger;
      ghost var ev := Set(node.num, e.qwID, e.qwCD, e.exact, e.cron, e.qwNextTime);
      ghost var r := EnrollFacts(Cal(), l, ev, e);
      Separate();
      RemapMirrored(e, node, l, r);
      Commit(ev, AfterSet(l, e, r));
    }

    /** What every call a client makes leaves alone, and how it extends the history. */
    twostate predicate Continues()
      reads this, wheel, wheel.lists, pool
    {
      GoesOn(old(Seen()), Seen()) && SameWork() && old(nodes) <= nodes
    }

    /** Everything a client call may change is known to the module or new. */
    twostate predicate Grows()
      reads this, pool
    {
      fresh(repr - old(repr)) && fresh(pool.repr - old(pool.repr))
    }

    /** The field assignments of SetTimer on a cell the ledger does not know. */
    method Fill(e: TimerElement, sink: nat, id: u64, period: u64, exact: bool, cron: bool)
      requires Core(ledger.used + {e}, ledger.linked) && e in pool.cells && e !in ledger.used && e.IsReset()
      modifies e
      ensures Core(ledger.used + {e}, ledger.linked)
      ensures e.sink == sink && e.qwID == id && e.qwCD == period && !e.erased && e.exact == exact && e.cron == cron
    {
      hide GrowingPool.Valid, WheelState.Valid, Lists.Valid, Consistent, IsRun, CellsMirror, NodesMirror;
      LinkedAreUsed(Cal(), ledger);
      Separate();
      e.sink := sink;
      e.qwID := id;
      e.qwCD := period;
      e.erased := false;
      e.exact := exact;
      e.cron := cron;
    }

    /** The cron engine touches nothing of the module. */
    method AskEngine(ghost e: TimerElement, expr: string, cur: int) returns (answer: Cron.Result<int>)
      requires Core(ledger.used + {e}, ledger.linked)
      ensures Core(ledger.used + {e}, ledger.linked) && Cron.Answers(expr, cur, answer)
    {
      hide GrowingPool.Valid, WheelState.Valid, Lists.Valid, Consistent, IsRun, CellsMirror, NodesMirror, ReprOk;
      hide Cron.Answers;
      Reach(ledger.used + {e}, ledger.linked);
      answer := Cron.SecondsToNext(expr, cur);
    }

    /** A fetched cell that nothing will ever refer to. */
    ghost method Lose(e: TimerElement)
      requires Core(ledger.used + {e}, ledger.linked) && e !in ledger.used + leaked
      modifies `leaked
      ensures Valid() && Leaks(old(Seen()), Seen()) && leaked == old(leaked) + {e}
    {
      hide GrowingPool.Valid, WheelState.Valid, Lists.Valid, Consistent, IsRun, CellsMirror, NodesMirror, ReprOk;
      Separate();
      leaked := leaked + {e};
      ALeak(old(Seen()), Seen(), e);
    }

    /** A mapped element is not erased and is known under the id it is mapped by. */
    lemma MappedCellData(node: TimerNode, id: u64)
      requires Valid() && Callable(node) && id in node.timers
      ensures node.timers[id] in ledger.used && !node.timers[id].erased && node.timers[id].qwID == id
    {
      hide GrowingPool.Valid, WheelState.Valid, IsRun;
      MappedCell(Cal(), ledger, node.num, id);
    }

    /** Under the given ids the node maps elements that hold the data of twins. */
    ghost predicate Twins(node: TimerNode, twins: map<u64, Timer>, ids: set<u64>)
      reads node, node.timers.Values`qwID, node.timers.Values`qwCD, node.timers.Values`qwNextTime
      reads node.timers.Values`exact, node.timers.Values`cron
      reads `ledger
    {
      forall id :: id in ids ==>
        && id in node.timers && id in twins
        && var e, t := node.timers[id], twins[id];
           && e in ledger.used && e.qwID == id && e.qwCD == t.period && e.exact == t.exact && e.cron == t.cron
           && e.qwNextTime == t.next
    }

    lemma AllMapped(node: TimerNode)
      requires Valid() && Callable(node)
      ensures node.num < |ledger.maps| && Twins(node, TimersOf(ledger, node.num), node.timers.Keys)
      ensures TimersOf(ledger, node.num).Keys == node.timers.Keys == ledger.maps[node.num].Keys
      ensures |node.timers| == |ledger.maps[node.num]|
    {
      hide GrowingPool.Valid, WheelState.Valid, IsRun;
      forall id | id in node.timers
        ensures node.timers[id] in ledger.used && !node.timers[id].erased && node.timers[id].qwID == id
      {
        MappedCell(Cal(), ledger, node.num, id);
      }
    }

    /** The member-wise assignment of CopyFrom, links included, with the new sink. */
    method CopyInto(e: TimerElement, o: TimerElement, sink: nat)
      requires Core(ledger.used + {e}, ledger.linked) && e in pool.cells && e !in ledger.used && o != e
      modifies e
      ensures Core(ledger.used + {e}, ledger.linked)
      ensures e.sink == sink && e.qwID == o.qwID && e.qwCD == o.qwCD && e.erased == o.erased
      ensures e.exact == o.exact && e.cron == o.cron && e.qwNextTime == o.qwNextTime
    {
      hide GrowingPool.Valid, WheelState.Valid, Lists.Valid, Consistent, IsRun, CellsMirror, NodesMirror;
      LinkedAreUsed(Cal(), ledger);
      Separate();
      e.Assign(o);
      e.sink := sink;
    }

    method SetNext(e: TimerElement, next: u64)
      requires Core(ledger.used + {e}, ledger.linked) && e in pool.cells && e !in ledger.used
      modifies e`qwNextTime
      ensures Core(ledger.used + {e}, ledger.linked) && e.qwNextTime == next
    {
      hide GrowingPool.Valid, WheelState.Valid, Lists.Valid, Consistent, IsRun, CellsMirror, NodesMirror;
      LinkedAreUsed(Cal(), ledger);
      Separate();
      e.qwNextTime := next;
    }

    /** What a caller needs to know of a valid module. */
    lemma Places()
      requires Valid()
      ensures |run.states| > 0 && wheel in repr && wheel.lists in repr && pool in pool.repr
      ensures forall n :: n in nodes ==> n in repr
    {
      hide GrowingPool.Valid, WheelState.Valid, Consistent, IsRun, CellsMirror, NodesMirror;
      pool.Parts();
    }

    lemma IsSound()
      requires Valid()
      ensures Sound(Seen())
    {
      hide GrowingPool.Valid, WheelState.Valid, Consistent, IsRun, CellsMirror, NodesMirror;
    }

    method Adopt(e: TimerElement, node: TimerNode)
      requires Core(ledger.used + {e}, ledger.linked) && Callable(node) && e in pool.cells && e !in ledger.used
      requires e.sink == node.num && !e.erased
      modifies this, repr, pool.repr
      ensures Valid() && Callable(node) && Continues() && repr == old(repr) && pool.repr == old(pool.repr)
      ensures run == old(Extend(run, Set(node.num, e.qwID, e.qwCD, e.exact, e.cron, e.qwNextTime)))
      ensures node.timers == old(node.timers)[old(e.qwID) := e]
      ensures forall n :: n in old(nodes) && n != node ==> n.timers == old(n.timers) && n.alive == old(n.alive)
      ensures forall x :: x in old(ledger.used) ==> SameData(x)
      ensures dwTickCount == old(dwTickCount) && dwSpeed == old(dwSpeed) && ledger.used == old(ledger.used) + {e}
      ensures leaked == old(leaked)
    {
      hide Core, DueTick, FireCount, Extend, Step, Last, GoesOn;
      Reach(ledger.used + {e}, ledger.linked);
      FreshUid(ledger.used + {e}, ledger.linked);
      LinkNew(e);
      Separate();
      Register(e, node);
    }

    /** A linked element becomes known to its node and to the history. */
    method Register(e: TimerElement, node: TimerNode)
      requires Core(ledger.used + {e}, ledger.linked + {e}) && e !in ledger.used && Callable(node)
      requires e.uid == Cal().issued && e.due == DueTick(wheel.tick, wheel.dispatching, e.qwNextTime)
      requires e.sink == node.num && !e.erased
      modifies `run, `ledger, node`timers, ledger.used`erased
      ensures Valid() && Callable(node) && GoesOn(old(Seen()), Seen())
      ensures run == Extend(old(run), Set(node.num, e.qwID, e.qwCD, e.exact, e.cron, e.qwNextTime))
      ensures node.timers == old(node.timers)[e.qwID := e] && ledger.used == old(ledger.used) + {e}
    {
      hide Core, DueTick, FireCount, Extend, Step, Last, GoesOn;
      FreshUid(ledger.used + {e}, ledger.linked + {e});
      ghost var ev := Set(node.num, e.qwID, e.qwCD, e.exact, e.cron, e.qwNextTime);
      Enroll(e, node);
      GoesOneOn(old(Seen()), Seen(), ev);
    }

    /** The common end of SetTimer and SetTimerCron: e is to fire `ahead` from now on the node's behalf. */
    method Schedule(e: TimerElement, node: TimerNode, ahead: int, now: u32)
      requires Core(ledger.used + {e}, ledger.linked) && Callable(node) && e in pool.cells && e !in ledger.used
      requires e.sink == node.num && !e.erased
      modifies this, repr, pool.repr
      ensures Valid() && Callable(node) && Continues() && repr == old(repr) && pool.repr == old(pool.repr)
      ensures run == Armed(old(run), Passed(old(dwTickCount), now, old(dwSpeed)),
                           old(TimerSetting(node.num, e.qwID, e.qwCD, e.exact, e.cron, ahead)))
      ensures dwTickCount == now && dwSpeed == old(dwSpeed) && leaked == old(leaked)
      ensures node.timers == old(node.timers)[old(e.qwID) := e]
    {
      hide Core, FireCount, Step, Extend;
      Reach(ledger.used + {e}, ledger.linked);
      FireCountExtends(run, Sample(Passed(dwTickCount, now, dwSpeed)));
      SampleStep(Cal(), Passed(dwTickCount, now, dwSpeed));
      var t := SampleClock(now, ledger.used + {e});
      AddDelay(Cal().boot, ahead);
      SetNext(e, (t + ahead) % TWO64);
      Adopt(e, node);
    }

    /** The engine is asked only once the cell has been fetched. */
    method ScheduleCron(e: TimerElement, node: TimerNode, id: u64, expr: string, cur: int, now: u32)
      returns (threw: bool)
      requires Core(ledger.used + {e}, ledger.linked) && Callable(node) && e in pool.cells && e.IsReset()
      requires e !in ledger.used + leaked && expr != "" && Cells(Seen()) != Room()
      modifies this, repr, pool.repr
      ensures Valid() && Callable(node) && Continues() && repr == old(repr) && pool.repr == old(pool.repr)
      ensures ArmsCron(old(Seen()), Seen(), Room(), node.num, id, expr, cur, now)
      ensures if threw then Leaks(old(Seen()), Seen()) else leaked == old(leaked)
      ensures !Cron.Reads(expr) ==> threw
      ensures threw && Cron.Reads(expr) ==> !NextInstant.InTime(cur)
    {
      hide Core, FireCount, Step, Extend, Armed, ArmsCron, Leaks, GoesOn, Cron.Reads, Cron.FromText, NextInstant.InTime;
      Reach(ledger.used + {e}, ledger.linked);
      FreshUid(ledger.used + {e}, ledger.linked);
      ghost var v := Seen();
      var next := AskEngine(e, expr, cur);
      threw := next.Err?;
      if threw {
        Lose(e);
        GoesIdle(v, Seen());
      } else {
        assert forall n :: n in nodes ==> n as object != e;
        Fill(e, node.num, id, 0, false, true);
        Schedule(e, node, next.value * 1000, now);
      }
      ACronCall(v, Seen(), Room(), node.num, id, expr, cur, now, next);
    }

    /** A fetched cell becomes the twin of o on the given node. */
    method Copy(e: TimerElement, o: TimerElement, node: TimerNode)
      requires Core(ledger.used + {e}, ledger.linked) && Callable(node) && e in pool.cells && e !in ledger.used
      requires o in ledger.used && !o.erased
      modifies this, repr, pool.repr
      ensures Valid() && Callable(node) && Continues() && repr == old(repr) && pool.repr == old(pool.repr)
      ensures run == old(Extend(run, Set(node.num, o.qwID, o.qwCD, o.exact, o.cron, o.qwNextTime)))
      ensures node.timers == old(node.timers)[old(o.qwID) := e]
      ensures forall n :: n in old(nodes) && n != node ==> n.timers == old(n.timers) && n.alive == old(n.alive)
      ensures forall x :: x in old(ledger.used) ==> SameData(x)
      ensures dwTickCount == old(dwTickCount) && dwSpeed == old(dwSpeed) && ledger.used == old(ledger.used) + {e}
      ensures leaked == old(leaked)
    {
      hide Core, GoesOn, Step, Extend, Last;
      Reach(ledger.used + {e}, ledger.linked);
      assert forall n :: n in nodes ==> n as object != e;
      CopyInto(e, o, node.num);
      Adopt(e, node);
    }

    /** Fetches a cell for that, if there is one left. */
    method FetchCopy(o: TimerElement, node: TimerNode) returns (copied: bool)
      requires Valid() && Callable(node) && o in ledger.used && !o.erased
      modifies this, repr, pool.repr
      ensures run == if copied then old(Extend(run, Set(node.num, o.qwID, o.qwCD, o.exact, o.cron, o.qwNextTime)))
                     else old(run)
      ensures dwTickCount == old(dwTickCount) && dwSpeed == old(dwSpeed)
      ensures copied <==> Cells(old(Seen())) != Room()
      ensures leaked == old(leaked)
      ensures if copied then |ledger.used| == |old(ledger.used)| + 1 else ledger == old(ledger)
      ensures forall n, i :: n in old(nodes) && i in old(n.timers) && i != old(o.qwID) ==>
                i in n.timers && n.timers[i] == old(n.timers[i])
      ensures old(ledger.used) <= ledger.used && forall x :: x in old(ledger.used) ==> SameData(x)
      ensures Valid() && Callable(node) && Continues() && Grows()
      ensures forall n :: n in old(nodes) && old(Callable(n)) ==> Callable(n)
    {
      hide Core, Step, Extend, FireCount;
      Places();
      assert node in nodes;
      var e := FetchElement();
      if e != null {
        Copy(e, o, node);
      }
      return e != null;
    }

    // ----- clients

    lemma CellsSame(l: Ledger, m: Ledger)
      requires CellsMirror(l) && m.used == l.used && m.records == l.records
      ensures CellsMirror(m)
    {
    }

    /** A new CDMTimerNode, with no timers. */
    method NewNode()
      requires Valid() && !Cal().phase.Dispatching?
      modifies `nodes, `ledger, `repr
      ensures Valid() && Continues() && Grows() && Does(NewNodeOp, old(Seen()), Seen(), Room())
      ensures |nodes| == |old(nodes)| + 1 && Callable(nodes[|old(nodes)|]) && nodes[|old(nodes)|].timers == map[]
    {
      hide Core, GoesOn, Does;
      Places();
      Reach(ledger.used, ledger.linked);
      var n := new TimerNode(|nodes|);
      Enlist(n);
      GoesIdle(old(Seen()), Seen());
      NewNodeDone(old(Seen()), Seen(), Room());
    }

    method Enlist(n: TimerNode)
      requires Valid() && n.num == |nodes| && n.timers == map[] && n.alive
      modifies `nodes, `ledger, `repr
      ensures Valid() && nodes == old(nodes) + [n] && repr == old(repr) + {n}
      ensures ledger == old(ledger).(maps := old(ledger.maps) + [map[]], alive := old(ledger.alive) + [true])
    {
      hide GrowingPool.Valid, WheelState.Valid, Lists.Valid, Consistent, IsRun, CellsMirror, ClockFits;
      Separate();
      NewNodeKeeps(Cal(), ledger);
      CellsSame(ledger, ledger.(maps := ledger.maps + [map[]], alive := ledger.alive + [true]));
      nodes := nodes + [n];
      repr := repr + {n};
      ledger := ledger.(maps := ledger.maps + [map[]], alive := ledger.alive + [true]);
    }

    /** One client call.  Calls on a node that does not exist, or no longer, cannot happen and do nothing. */
    method Apply(op: ClientOp)
      requires Valid() && !Cal().phase.Dispatching?
      modifies this, repr, pool.repr
      ensures Valid() && Continues() && Grows() && Does(op, old(Seen()), Seen(), Room())
    {
      hide Core, FireCount, Extend, Step, Arms, ArmsCron, Only, Copies;
      Places();
      NodesAsViewed();
      match op
      case NewNodeOp => NewNode();
      case SetSpeedOp(speed) => Speed(speed);
      case SetTimerOp(n, id, period, first, exact, now) =>
        if n < |nodes| && nodes[n].alive {
          NodePlace(n);
          var _ := nodes[n].SetTimer(this, id, period, first, exact, now);
        }
      case SetTimerCronOp(n, id, expr, cur, now) =>
        if n < |nodes| && nodes[n].alive {
          NodePlace(n);
          var _, _ := nodes[n].SetTimerCron(this, id, expr, cur, now);
        }
      case KillTimerOp(n, id) =>
        if n < |nodes| && nodes[n].alive {
          NodePlace(n);
          nodes[n].KillTimer(this, id);
        }
      case KillTimersOp(n) =>
        if n < |nodes| && nodes[n].alive {
          NodePlace(n);
          nodes[n].KillTimers(this);
        }
      case CopyFromOp(n, src) =>
        if n < |nodes| && nodes[n].alive && src < |nodes| && nodes[src].alive {
          NodePlace(n);
          NodePlace(src);
          var _ := nodes[n].CopyFrom(this, nodes[src]);
        }
      case EndNodeOp(n) =>
        if n < |nodes| && nodes[n].alive {
          NodePlace(n);
          nodes[n].End(this);
        }
    }

    lemma NodesAsViewed()
      requires Valid()
      ensures |nodes| == |ledger.maps| == |ledger.alive|
      ensures forall n :: 0 <= n < |nodes| ==> nodes[n].timers == ledger.maps[n]
      ensures forall n: nat :: Lives(Seen(), n) <==> n < |nodes| && nodes[n].alive
    {
    }

    lemma NodePlace(n: nat)
      requires Valid() && !Cal().phase.Dispatching? && n < |nodes| && nodes[n].alive
      ensures Callable(nodes[n]) && nodes[n].num == n
    {
    }

    method Speed(speed: u32)
      requires Valid()
      modifies `dwSpeed
      ensures Valid() && Continues() && Grows() && Seen() == old(Seen()).(speed := speed)
    {
      hide GrowingPool.Valid, WheelState.Valid, Lists.Valid, Consistent, IsRun, FireCount, CellsMirror, NodesMirror;
      Separate();
      SetSpeed(speed);
    }

    /** The body of a callback: any finite sequence of client calls. */
    method Callback(ops: seq<ClientOp>) returns (ghost views: seq<View>)
      requires Valid() && Cal().phase.InCallback?
      modifies this, repr, pool.repr
      ensures Valid() && Continues() && Grows()
      ensures Performs(ops, views, Room()) && views[0] == old(Seen()) && views[|ops|] == Seen()
    {
      hide Core, FireCount, Does, GoesOn, Sound;
      Places();
      IsSound();
      GoesNowhere(Seen());
      views := [Seen()];
      for i := 0 to |ops|
        invariant Valid() && Continues() && Grows() && |run.states| > 0
        invariant Cal().phase == old(Cal()).phase
        invariant Performs(ops[..i], views, Room()) && views[0] == old(Seen()) && views[i] == Seen()
      {
        Apply(ops[i]);
        IsSound();
        GoesOnAgain(old(Seen()), views[i], Seen());
        views := views + [Seen()];
      }
      assert ops[..|ops|] == ops;
    }

    // ----- the inner loop of Run

    /** The first element of the work list, unlinked and due. */
    method TakeDue(work: TimerElement) returns (timer: TimerElement)
      requires Valid() && Cal().phase.Dispatching?
      requires wheel.lists.heads == wheel.lists.vec + [work] && !ListEmpty(work)
      modifies wheel.lists, wheel.lists.Nodes()`next, wheel.lists.Nodes()`prev
      ensures Core(ledger.used, ledger.linked - {timer}) && timer in ledger.linked && timer.due == wheel.tick
      ensures timer !in wheel.lists.Nodes() && timer.next == null
      ensures wheel.lists.heads == old(wheel.lists.heads)
      ensures |wheel.lists.Local()| < |old(wheel.lists.Local())|
    {
      hide GrowingPool.Valid, WheelState.Valid, Lists.Valid, Consistent, IsRun, CellsMirror, NodesMirror;
      LinkedAreUsed(Cal(), ledger);
      pool.Parts();
      Separate();
      timer := wheel.TakeNext(work);
    }

    /** ReleaseElement on a cell that is not linked; the ledger lets go of it in the same step. */
    method Release(timer: TimerElement, ghost ev: Event)
      requires Core(ledger.used, ledger.linked - {timer}) && timer in ledger.used
      requires Enabled(Cal(), ev) && ClockFits(Step(Cal(), ev))
      requires timer in ledger.records && Consistent(Step(Cal(), ev), AfterRelease(ledger, timer))
      requires !IsReading(ev)
      modifies this, pool.repr
      ensures Valid() && Only(old(Seen()), Seen(), Extend(old(run), ev)) && Cal() == Step(old(Cal()), ev)
      ensures repr == old(repr) && pool.repr == old(pool.repr) && nodes == old(nodes)
      ensures SameWheel()
    {
      hide GrowingPool.Valid, WheelState.Valid, Lists.Valid, Consistent, IsRun, CellsMirror, NodesMirror, Step, Extend;
      LinkedAreUsed(Cal(), ledger);
      pool.Parts();
      Separate();
      MirrorLess(ledger, timer);
      ghost var l := ledger;
      pool.ReleaseObj(timer);
      Commit(ev, AfterRelease(l, timer));
    }

    lemma MirrorLess(l: Ledger, e: TimerElement)
      requires CellsMirror(l) && NodesMirror(l) && e in l.records
      ensures CellsMirror(AfterRelease(l, e)) && NodesMirror(AfterRelease(l, e))
    {
    }

    /** A timer that was killed before its turn: no callback, only the release. */
    method DropErased(timer: TimerElement)
      requires Core(ledger.used, ledger.linked - {timer}) && timer in ledger.linked && timer.due == wheel.tick
      requires Cal().phase.Dispatching? && timer.erased
      modifies this, pool.repr
      ensures Valid() && Only(old(Seen()), Seen(), Extend(old(run), Drop(old(timer.uid))))
      ensures SameClock(old(Cal()), Cal())
      ensures repr == old(repr) && pool.repr == old(pool.repr) && nodes == old(nodes)
      ensures SameWheel()
    {
      hide GrowingPool.Valid, WheelState.Valid, Lists.Valid, Consistent, IsRun, NodesMirror, Step, Extend;
      LinkedAreUsed(Cal(), ledger);
      DropFacts(Cal(), ledger, timer);
      Release(timer, Drop(timer.uid));
    }

    /** Just before the callback is made. */
    ghost method StartCallback(timer: TimerElement)
      requires Core(ledger.used, ledger.linked - {timer}) && timer in ledger.linked && timer.due == wheel.tick
      requires Cal().phase.Dispatching? && !timer.erased
      modifies `run, `ledger
      ensures Valid() && Only(old(Seen()), Seen(), Extend(old(run), Fire(timer.uid)))
      ensures Cal().phase == InCallback(timer.uid)
      ensures Cal().tick == old(Cal()).tick && Cal().target == old(Cal()).target
      ensures timer.uid in ledger.elem && ledger.elem[timer.uid] == timer
    {
      hide GrowingPool.Valid, WheelState.Valid, Lists.Valid, Consistent, IsRun, NodesMirror, Step, Extend;
      LinkedAreUsed(Cal(), ledger);
      FireFacts(Cal(), ledger, timer);
      Separate();
      ghost var l := ledger;
      MirrorSame(l, AfterUnlink(l, timer));
      Commit(Fire(timer.uid), AfterUnlink(l, timer));
    }

    lemma MirrorSame(l: Ledger, m: Ledger)
      requires CellsMirror(l) && NodesMirror(l)
      requires m.used == l.used && m.records == l.records && m.maps == l.maps && m.alive == l.alive
      ensures CellsMirror(m) && NodesMirror(m)
    {
    }

    /** The callback killed its own timer, or replaced it, or ended its node. */
    method FinishErased(timer: TimerElement, ghost delay: int)
      requires Valid() && Cal().phase == InCallback(timer.uid) && timer.uid in ledger.elem
      requires ledger.elem[timer.uid] == timer && timer.erased
      modifies this, pool.repr
      ensures Valid() && Only(old(Seen()), Seen(), Extend(old(run), Return(delay))) && Cal().phase == Dispatching
      ensures Cal().tick == old(Cal()).tick && Cal().target == old(Cal()).target
      ensures repr == old(repr) && pool.repr == old(pool.repr) && nodes == old(nodes)
      ensures SameWheel()
    {
      hide GrowingPool.Valid, WheelState.Valid, Lists.Valid, Consistent, IsRun, NodesMirror, Step, Extend;
      CallbackFacts(Cal(), ledger, timer);
      ErasedReturnFacts(Cal(), ledger, timer, delay);
      Release(timer, Return(delay));
    }

    lemma ReadData(e: TimerElement, uid: nat, t: Timer)
      requires CellData(e, uid, t)
      ensures e.uid == uid
      ensures Timer(e.sink, e.qwID, e.qwCD, e.exact, e.cron, e.qwNextTime, e.due) == t
    {
    }

    lemma WriteData(e: TimerElement, uid: nat, t: Timer)
      requires e.uid == uid
      requires Timer(e.sink, e.qwID, e.qwCD, e.exact, e.cron, e.qwNextTime, e.due) == t
      ensures CellData(e, uid, t)
    {
    }

    lemma SameMaps(l: Ledger, e: TimerElement, next: u64, due: nat)
      requires NodesMirror(l) && e in l.records
      ensures NodesMirror(AfterRequeue(l, e, next, due))
    {
    }

    lemma CallbackPlace(timer: TimerElement)
      requires Valid() && Cal().phase == InCallback(timer.uid) && timer.uid in ledger.elem
      requires ledger.elem[timer.uid] == timer
      ensures timer in ledger.used && timer !in ledger.linked && timer !in wheel.lists.Nodes() && timer in pool.repr
      ensures timer in ledger.records && timer in pool.cells && CellSays(timer, ledger.records[timer])
    {
      hide GrowingPool.Valid, WheelState.Valid, IsRun, NodesMirror;
      pool.Parts();
      CallbackFacts(Cal(), ledger, timer);
    }

    /** Lines of Run that compute m_qwNextTime after a callback. */
    method Reschedule(timer: TimerElement, delay: int)
      modifies timer`qwNextTime
      ensures timer.qwNextTime ==
              Rescheduled(Timer(timer.sink, timer.qwID, timer.qwCD, timer.exact, timer.cron, old(timer.qwNextTime), 0),
                          qwCurTime, delay)
    {
      hide Wrap;
      if !timer.cron {
        timer.qwNextTime := Wrap(timer.qwNextTime + timer.qwCD);
        if !timer.exact && qwCurTime >= timer.qwNextTime {
          timer.qwNextTime := Wrap(qwCurTime + timer.qwCD);
        }
      } else {
        timer.qwNextTime := Wrap(qwCurTime + delay * 1000);
      }
    }

    /** The last lines of the inner loop: the element is rescheduled and put back into the wheel. */
    method Reinsert(timer: TimerElement, delay: int)
      requires wheel.Valid() && timer !in wheel.lists.Nodes() && timer !in wheel.Linked()
      modifies wheel.lists, wheel.lists.Nodes()`next, wheel.lists.Nodes()`prev, timer
      ensures wheel.Valid() && wheel.Linked() == old(wheel.Linked()) + {timer} && SameWork()
      ensures timer.uid == old(timer.uid) && timer.sink == old(timer.sink) && timer.erased == old(timer.erased)
      ensures timer.qwID == old(timer.qwID) && timer.qwCD == old(timer.qwCD)
      ensures timer.exact == old(timer.exact) && timer.cron == old(timer.cron)
      ensures timer.qwNextTime ==
              Rescheduled(Timer(timer.sink, timer.qwID, timer.qwCD, timer.exact, timer.cron, old(timer.qwNextTime), 0),
                          qwCurTime, delay)
      ensures timer.due == DueTick(wheel.tick, wheel.dispatching, timer.qwNextTime)
    {
      hide WheelState.Valid, Lists.Valid, Rescheduled, DueTick, Relinks;
      Separate();
      Reschedule(timer, delay);
      wheel.AddTimerElement(timer, 0);
    }

    /** After which it says what the ledger will record of it. */
    method RequeueMirrored(timer: TimerElement, delay: int, ghost l: Ledger, ghost next: u64)
      requires wheel.Valid() && CellsMirror(l) && l.records.Keys == l.used
      requires timer in l.used && timer !in wheel.lists.Nodes() && timer !in wheel.Linked()
      requires next == Rescheduled(l.records[timer].timer, qwCurTime, delay)
      modifies wheel.lists, wheel.lists.Nodes()`next, wheel.lists.Nodes()`prev, timer
      ensures wheel.Valid() && wheel.Linked() == old(wheel.Linked()) + {timer} && SameWork()
      ensures CellsMirror(AfterRequeue(l, timer, next, DueTick(wheel.tick, wheel.dispatching, next)))
    {
      hide WheelState.Valid, Lists.Valid, Rescheduled, DueTick, AfterRequeue, CellData, Lists.Nodes;
      Separate();
      ghost var r, due := l.records[timer], DueTick(wheel.tick, wheel.dispatching, next);
      AfterRequeueParts(l, timer, next, due);
      RescheduleIgnoresDue(r.timer, qwCurTime, delay);
      ReadData(timer, r.uid, r.timer);
      Reinsert(timer, delay);
      WriteData(timer, r.uid, r.timer.(next := next, due := due));
    }

    /** The timer stays: the next expiry is computed, and the element goes back into the wheel. */
    method Requeue(timer: TimerElement, delay: int)
      requires Valid() && Cal().phase == InCallback(timer.uid) && timer.uid in ledger.elem
      requires ledger.elem[timer.uid] == timer && !timer.erased
      modifies this, repr, pool.repr
      ensures Valid() && Only(old(Seen()), Seen(), Extend(old(run), Return(delay))) && Cal().phase == Dispatching
      ensures Cal().tick == old(Cal()).tick && Cal().target == old(Cal()).target
      ensures repr == old(repr) && pool.repr == old(pool.repr) && nodes == old(nodes)
      ensures SameWork()
    {
      hide GrowingPool.Valid, WheelState.Valid, Lists.Valid, Consistent, IsRun, CellsMirror, NodesMirror, Step, Extend;
      hide DueTick, Rescheduled, AfterRequeue;
      Reach(ledger.used, ledger.linked);
      CallbackPlace(timer);
      LinkedAreUsed(Cal(), ledger);
      Separate();
      ghost var l := ledger;
      ghost var next := RequeueFacts(Cal(), l, timer, qwCurTime, delay);
      RequeueMirrored(timer, delay, l, next);
      SameMaps(l, timer, next, DueTick(wheel.tick, true, next));
      Commit(Return(delay), AfterRequeue(l, timer, next, DueTick(wheel.tick, true, next)));
    }

    /** The tick being dispatched goes on: same tick, same Run, same list heads; n callbacks so far. */
    twostate predicate StillDispatching(n: nat)
      reads this, wheel, wheel.lists, pool
    {
      && Advances(old(Seen()), Seen(), n) && Last(run).phase == Dispatching
      && wheel.lists.heads == old(wheel.lists.heads)
    }

    /** One round of the inner loop of Run. */
    method DispatchOne(work: TimerElement, ops: seq<ClientOp>, delay: int)
      returns (called: bool, ghost views: seq<View>)
      requires Valid() && Cal().phase == Dispatching
      requires wheel.lists.heads == wheel.lists.vec + [work] && !ListEmpty(work)
      modifies this, repr, pool.repr
      ensures Valid() && Grows() && StillDispatching(if called then 1 else 0)
      ensures |wheel.lists.Local()| < |old(wheel.lists.Local())|
      ensures if called then Calls(old(Seen()), Seen(), ops, views, delay, Room()) else Drops(old(Seen()), Seen())
    {
      hide Core, FireCount, Step, Extend, Last, Performs, Advances, Calls, Drops, Lists.Local;
      Places();
      Reach(ledger.used, ledger.linked);
      ghost var v := Seen();
      var timer := TakeDue(work);
      if timer.erased {
        ghost var u := timer.uid;
        DropErased(timer);
        AdvancesByOne(v, Seen(), Drop(u));
        ADrop(v, Seen(), u);
        return false, [];
      }
      views := CallDue(timer, ops, delay);
      return true, views;
    }

    /** The element is not erased: its callback is made. */
    method CallDue(timer: TimerElement, ops: seq<ClientOp>, delay: int) returns (ghost views: seq<View>)
      requires Core(ledger.used, ledger.linked - {timer}) && timer in ledger.linked && timer.due == wheel.tick
      requires Cal().phase.Dispatching? && !timer.erased
      modifies this, repr, pool.repr
      ensures Valid() && Grows() && StillDispatching(1) && wheel.lists.Local() == old(wheel.lists.Local())
      ensures Calls(old(Seen()), Seen(), ops, views, delay, Room())
    {
      hide Core, FireCount, Step, Extend, Last, Performs, Advances, Calls, Lists.Local;
      FreshUid(ledger.used, ledger.linked - {timer});
      ghost var v, u := Seen(), timer.uid;
      StartCallback(timer);
      ghost var w := Seen();
      AdvancesByOne(v, w, Fire(u));
      views := RunCallback(timer, ops, delay);
      AdvancesOn(v, w, Seen(), 1, 0);
      ACall(v, Seen(), u, ops, views, delay, Room());
    }

    /** The callback, and what Run does with the element afterwards. */
    method RunCallback(timer: TimerElement, ops: seq<ClientOp>, delay: int) returns (ghost views: seq<View>)
      requires Valid() && Cal().phase == InCallback(timer.uid) && timer.uid in ledger.elem
      requires ledger.elem[timer.uid] == timer
      modifies this, repr, pool.repr
      ensures Valid() && Grows() && StillDispatching(0) && wheel.lists.Local() == old(wheel.lists.Local())
      ensures Performs(ops, views, Room()) && |views| == |ops| + 1 && views[0] == old(Seen())
      ensures |views[|ops|].run.states| > 0 && Only(views[|ops|], Seen(), Extend(views[|ops|].run, Return(delay)))
    {
      hide Core, FireCount, Step, Extend, Last, Does, Advances;
      Places();
      ghost var v, u := Seen(), timer.uid;
      views := Callback(ops);
      ghost var w := Seen();
      GoingOnAdvances(v, w);
      StillThere(u, timer);
      if timer.erased {
        FinishErased(timer, delay);
      } else {
        Requeue(timer, delay);
      }
      AdvancesByOne(w, Seen(), Return(delay));
      AdvancesOn(v, w, Seen(), 0, 0);
    }

    /** During its callback a timer keeps its cell. */
    lemma StillThere(u: nat, timer: TimerElement)
      requires Valid() && Cal().phase == InCallback(u) && u in ledger.elem && ledger.elem[u] == timer
      ensures timer.uid == u
    {
      hide GrowingPool.Valid, WheelState.Valid, IsRun, NodesMirror;
      CallbackFacts(Cal(), ledger, timer);
    }

    /** The inner loop of Run: drains the work list.  The story of the Run goes on with its rounds. */
    method DispatchAll(work: TimerElement, script: nat -> seq<ClientOp>, delays: nat -> int, before: nat, ghost v: View,
                       ghost told: Story)
      returns (n: nat, ghost story: Story)
      requires Valid() && Cal().phase == Dispatching
      requires wheel.lists.heads == wheel.lists.vec + [work]
      requires Tells(told, v, Seen(), script, delays, Room()) && before == Count(told.moves)
      modifies this, repr, pool.repr
      ensures Valid() && Grows() && n >= before && StillDispatching(n - before) && ListEmpty(work)
      ensures Tells(story, v, Seen(), script, delays, Room()) && n == Count(story.moves)
      ensures CarefulScript(script) ==> leaked == old(leaked)
    {
      hide Core, FireCount, Extend, Step, Last, Advances, Careful, Calls, Drops, Tells, Count;
      Places();
      assert Advances(Seen(), Seen(), 0) by { GoesNowhere(Seen()); GoingOnAdvances(Seen(), Seen()); }
      n, story := before, told;
      while !ListEmpty(work)
        invariant Valid() && Grows() && n >= before && StillDispatching(n - before)
        invariant CarefulScript(script) ==> leaked == old(leaked)
        invariant Tells(story, v, Seen(), script, delays, Room()) && n == Count(story.moves)
        decreases |wheel.lists.Local()|
      {
        ghost var w := Seen();
        var called, views := DispatchOne(work, script(n), delays(n));
        AdvancesOn(old(Seen()), w, Seen(), n - before, if called then 1 else 0);
        RoundKeeps(w, Seen(), called, script(n), views, delays(n), Room());
        ghost var move := if called then Called(views) else Dropped;
        OneMoved(story, v, w, Seen(), move, script, delays, Room());
        story := Longer(story, Seen(), move);
        if called {
          n := n + 1;
        }
      }
    }

    // ----- Run

    /** m_qwCurTime = GetBootTime(). */
    method StartRunning(now: u32)
      requires Valid() && Cal().phase.Idle?
      modifies `qwCurTime, `dwTickCount, `qwTotalTickCount, `run, `ledger, `readings, `speeds
      ensures Valid() && run == Extend(old(run), StartRun(Passed(old(dwTickCount), now, dwSpeed)))
      ensures readings == old(readings) + [now] && speeds == old(speeds) + [dwSpeed] && dwTickCount == now
      ensures Cal().phase.Idle? && Cal().tick == old(Cal()).tick
      ensures Started(old(Seen()), Seen(), now)
    {
      hide GrowingPool.Valid, WheelState.Valid, Lists.Valid, Consistent, IsRun, CellsMirror, NodesMirror, ReprOk;
      hide Step, Extend, Passed;
      ghost var passed;
      Separate();
      qwCurTime, passed := GetBootTime(now);
      StartRunFacts(Cal(), ledger, passed);
      Book(StartRun(passed), now);
      Commit(StartRun(passed), ledger);
    }

    /** The wheel's part of it; the cells still say what the ledger records. */
    method BeginMirrored(work: TimerElement, ghost l: Ledger)
      requires wheel.Valid() && !wheel.dispatching && work !in wheel.lists.Nodes()
      requires CellsMirror(l) && wheel.Linked() <= l.used && work !in l.used
      modifies wheel`dispatching, wheel.lists, work`next, work`prev
      modifies wheel.lists.Nodes()`next, wheel.lists.Nodes()`prev, wheel.Linked()`due, wheel.Linked()`touch
      modifies wheel.Linked()`hops, wheel.Linked()`plan
      ensures wheel.Valid() && wheel.dispatching && wheel.lists.heads == wheel.lists.vec + [work]
      ensures wheel.Linked() == old(wheel.Linked()) && CellsMirror(l)
    {
      hide WheelState.Valid, Lists.Valid, CellData;
      Separate();
      wheel.BeginTick(work);
      forall e | e in l.used
        ensures CellSays(e, l.records[e])
      {
        assert old(CellSays(e, l.records[e]));
        assert e.due == old(e.due);
        assert CellData(e, l.records[e].uid, l.records[e].timer);
      }
    }

    /** The cascades of the current tick, after which its slot is detached onto a new work list. */
    method StartTick() returns (work: TimerElement)
      requires Valid() && Cal().phase.Idle? && qwCurTime != wheel.qwLastTime
      modifies this, repr, pool.repr
      ensures Valid() && run == Extend(old(run), BeginTick) && Cal() == old(Cal()).(phase := Dispatching)
      ensures wheel.lists.heads == wheel.lists.vec + [work] && Grows()
      ensures leaked == old(leaked) && dwTickCount == old(dwTickCount) && dwSpeed == old(dwSpeed)
    {
      hide GrowingPool.Valid, WheelState.Valid, Lists.Valid, Consistent, IsRun, CellsMirror, NodesMirror, Step, Extend;
      Reach(ledger.used, ledger.linked);
      LinkedAreUsed(Cal(), ledger);
      Separate();
      TimesOf();
      BeginTickFacts(Cal(), ledger);
      wheel.IdleHeads();
      work := new TimerElement(0, 0);
      BeginMirrored(work, ledger);
      repr := repr + {work};
      Commit(BeginTick, ledger);
    }

    /** When the work list is empty nothing on the calendar is due at this tick any more. */
    lemma TickOver(work: TimerElement)
      requires Valid() && Cal().phase == Dispatching
      requires wheel.lists.heads == wheel.lists.vec + [work] && ListEmpty(work)
      ensures Enabled(Cal(), EndTick)
    {
      hide GrowingPool.Valid, Lists.Valid, IsRun, NodesMirror, WheelState.AllInPlace;
      wheel.lists.Shape();
      wheel.lists.LocalList();
      wheel.NothingOverdue();
      forall u | u in Cal().timers
        ensures Cal().timers[u].due != Cal().tick
      {
        var e := ledger.elem[u];
        assert CellSays(e, ledger.records[e]);
        assert e in wheel.Linked();
      }
    }

    /** ++m_qwLastTime. */
    method FinishTick(work: TimerElement)
      requires Valid() && Cal().phase == Dispatching
      requires wheel.lists.heads == wheel.lists.vec + [work] && ListEmpty(work)
      modifies this, repr, pool.repr
      ensures Valid() && run == Extend(old(run), EndTick)
      ensures Cal() == old(Cal()).(phase := Idle, tick := old(Cal()).tick + 1) && Grows()
      ensures leaked == old(leaked) && dwTickCount == old(dwTickCount) && dwSpeed == old(dwSpeed)
    {
      hide GrowingPool.Valid, WheelState.Valid, Lists.Valid, Consistent, IsRun, CellsMirror, NodesMirror, Step, Extend;
      Places();
      Separate();
      TickOver(work);
      EndTickFacts(Cal(), ledger);
      wheel.EndTick(work);
      Commit(EndTick, ledger);
    }

    /** The whole outer loop body of Run. */
    method RunTick(script: nat -> seq<ClientOp>, delays: nat -> int, before: nat, ghost v: View, ghost told: Story)
      returns (n: nat, ghost story: Story)
      requires Valid() && Cal().phase.Idle? && qwCurTime != wheel.qwLastTime
      requires Tells(told, v, Seen(), script, delays, Room()) && before == Count(told.moves)
      modifies this, repr, pool.repr
      ensures Valid() && Grows() && Cal().phase.Idle?
      ensures n >= before && FireCount(run.log) == FireCount(old(run).log) + (n - before) && Precedes(old(run), run)
      ensures Cal().tick == old(Cal()).tick + 1 && Cal().target == old(Cal()).target
      ensures Tells(story, v, Seen(), script, delays, Room()) && n == Count(story.moves)
      ensures CarefulScript(script) ==> leaked == old(leaked)
    {
      hide Core, FireCount, Extend, Step, Last, CarefulScript, Tells, Count;
      Places();
      FireCountExtends(run, BeginTick);
      var work := StartTick();
      OneMoved(told, v, old(Seen()), Seen(), TickBegins, script, delays, Room());
      n, story := DispatchAll(work, script, delays, before, v, Longer(told, Seen(), TickBegins));
      Places();
      FireCountExtends(run, EndTick);
      ghost var w := Seen();
      FinishTick(work);
      OneMoved(story, v, w, Seen(), TickEnds, script, delays, Room());
      story := Longer(story, Seen(), TickEnds);
    }

    lemma TimesOf()
      requires Valid() && Cal().phase.Idle?
      ensures wheel.qwLastTime == Cal().tick % TWO64 && qwCurTime == Cal().target % TWO64
      ensures Cal().tick <= Cal().target
      ensures forall e :: e in pool.used - leaked ==> Cal().tick <= e.due
    {
      hide GrowingPool.Valid, Lists.Valid, IsRun, NodesMirror;
      wheel.NothingOverdue();
    }

    /**
     * Run: ends with m_qwLastTime == m_qwCurTime and no element overdue, and returns the number of callbacks
     * made.  script(i) and delays(i) are what the i-th callback does and what its cron expression answers; story
     * tells all that happens from the reading of the clock on, which leads to the view w.
     */
    method Run(now: u32, script: nat -> seq<ClientOp>, delays: nat -> int)
      returns (nEvents: nat, ghost w: View, ghost story: Story)
      requires Valid() && Cal().phase.Idle?
      modifies this, repr, pool.repr
      ensures Valid() && Grows() && Cal().phase.Idle?
      ensures wheel.qwLastTime == qwCurTime
      ensures Started(old(Seen()), w, now)
      ensures Tells(story, w, Seen(), script, delays, Room()) && nEvents == Count(story.moves)
      ensures Precedes(w.run, run) && FireCount(run.log) == FireCount(old(run).log) + nEvents
      ensures Cal().target == old(Cal()).boot + Passed(old(dwTickCount), now, old(dwSpeed))
      ensures old(Cal()).tick <= Cal().target && Cal().tick == old(Cal()).tick + Gap(old(Cal()).tick, Cal().target)
      ensures forall e :: e in pool.used - leaked ==> Cal().tick <= e.due
      ensures CarefulScript(script) ==> leaked == old(leaked)
    {
      hide Core, FireCount, Extend, Last, Gap, CarefulScript, Tells, Count;
      Places();
      FireCountExtends(run, StartRun(Passed(dwTickCount, now, dwSpeed)));
      nEvents := 0;
      StartRunning(now);
      w, story := Seen(), Story([Seen()], []);
      NothingTold(w, script, delays, Room());
      TimesOf();
      while qwCurTime != wheel.qwLastTime
        invariant Valid() && Grows() && |run.states| > 0 && Cal().phase.Idle?
        invariant Precedes(w.run, run)
        invariant FireCount(run.log) == FireCount(w.run.log) + nEvents
        invariant Tells(story, w, Seen(), script, delays, Room()) && nEvents == Count(story.moves)
        invariant CarefulScript(script) ==> leaked == old(leaked)
        invariant Cal().target == Last(w.run).target && Cal().tick <= Cal().target
        invariant wheel.qwLastTime == Cal().tick % TWO64 && qwCurTime == Cal().target % TWO64
        invariant old(Cal()).tick <= Cal().target
        invariant Cal().tick + Gap(Cal().tick, Cal().target) == old(Cal()).tick + Gap(old(Cal()).tick, Cal().target)
        decreases Gap(Cal().tick, Cal().target)
      {
        OneTickLess(Cal().tick, Cal().target);
        nEvents, story := RunTick(script, delays, nEvents, w, story);
        TimesOf();
      }
      TimesOf();
      GapClosed(Cal().tick, Cal().target);
    }

    // ----- UnInit

    /** All that UnInit relies on: the cells in use are those in the wheel and those lost. */
    ghost predicate Closing()
      reads this, pool, pool.grow, pool.pools, wheel.lists, wheel.lists.Nodes()`next, wheel.lists.Nodes()`prev
    {
      && ReprOk() && pool.Valid() && wheel.lists.Valid()
      && wheel.lists.heads == wheel.lists.vec
      && leaked <= pool.used && wheel.lists.where.Keys == pool.used - leaked
    }

    /** Takes the first element off the local list and gives it back to the pool. */
    method ReleaseFirst(local: TimerElement)
      requires pool.Valid() && wheel.lists.Valid() && wheel.lists.heads == wheel.lists.vec + [local]
      requires leaked <= pool.used && wheel.lists.where.Keys == pool.used - leaked && !ListEmpty(local)
      requires forall h :: h in wheel.lists.heads ==> h !in pool.cells
      modifies pool`used, pool.pools, wheel.lists`slots, wheel.lists`where
      modifies wheel.lists.Nodes()`next, wheel.lists.Nodes()`prev, pool.used
      ensures pool.Valid() && wheel.lists.Valid()
      ensures leaked <= pool.used < old(pool.used) && wheel.lists.where.Keys == pool.used - leaked
      ensures pool.repr == old(pool.repr)
      ensures |wheel.lists.slots| == SLOTS + 1 && wheel.lists.slots[..SLOTS] == old(wheel.lists.slots)[..SLOTS]
    {
      hide GrowingPool.Valid, Lists.Valid;
      Separate();
      pool.Parts();
      wheel.lists.Shape();
      wheel.lists.LocalList();
      var timer := local.next;
      wheel.lists.Unlink(timer, 0);
      Separate();
      assert timer !in wheel.lists.Nodes();
      assert forall p, e :: p in pool.pools && e in wheel.lists.Nodes() ==> p as object != e;
      pool.ReleaseObj(timer);
    }

    /** __ReleaseElement: every element of slot k is released, no other slot changes. */
    method ReleaseSlot(k: nat)
      requires Closing() && k < SLOTS
      modifies repr, pool.repr
      ensures Closing() && pool.used <= old(pool.used) && unchanged(this) && pool.repr == old(pool.repr)
      ensures |wheel.lists.slots| == SLOTS && wheel.lists.slots == old(wheel.lists.slots)[k := []]
    {
      hide GrowingPool.Valid, Lists.Valid;
      Separate();
      pool.Parts();
      wheel.lists.Shape();
      var local := new TimerElement(0, 0);
      wheel.lists.Detach(k, local);
      ghost var others := wheel.lists.slots[..SLOTS];
      while !ListEmpty(local)
        invariant pool.Valid() && wheel.lists.Valid() && wheel.lists.heads == wheel.lists.vec + [local]
        invariant leaked <= pool.used <= old(pool.used) && wheel.lists.where.Keys == pool.used - leaked
        invariant pool.repr == old(pool.repr)
        invariant pool.pools == old(pool.pools) && pool.cells == old(pool.cells) && unchanged(this)
        invariant |wheel.lists.slots| == SLOTS + 1 && wheel.lists.slots[..SLOTS] == others
        decreases pool.used
      {
        ReleaseFirst(local);
      }
      wheel.lists.LocalList();
      wheel.lists.Forget();
    }

    /** n slots from the given one on are empty. */
    ghost predicate Cleared(from: nat, n: nat)
      reads wheel.lists
    {
      from + n <= |wheel.lists.slots| && forall k :: from <= k < from + n ==> wheel.lists.slots[k] == []
    }

    lemma NothingLinked()
      requires Closing() && Cleared(0, SLOTS)
      ensures pool.used == leaked
    {
      wheel.lists.Contents(0);
      forall e | e in wheel.lists.where
        ensures false
      {
        wheel.lists.Contents(wheel.lists.where[e]);
      }
    }

    /** UnInit: after it only the lost cells are in use, and every pool is entirely free exactly if there are none. */
    method UnInit()
      requires Valid() && Cal().phase.Idle?
      modifies repr, pool.repr
      ensures pool.Valid() && pool.used == old(leaked)
      ensures (forall p :: p in pool.pools ==> p.IsFull()) <==> old(leaked) == {}
    {
      hide GrowingPool.Valid, Lists.Valid;
      StartClosing();
      for j := 0 to 64
        invariant Closing() && unchanged(this) && pool.repr == old(pool.repr) && |wheel.lists.slots| == SLOTS
        invariant Cleared(TV5, j) && Cleared(TV4, j) && Cleared(TV3, j) && Cleared(TV2, j)
      {
        ReleaseSlot(TV5 + j);
        ReleaseSlot(TV4 + j);
        ReleaseSlot(TV3 + j);
        ReleaseSlot(TV2 + j);
      }
      for i := 0 to 256
        invariant Closing() && unchanged(this) && pool.repr == old(pool.repr) && |wheel.lists.slots| == SLOTS
        invariant Cleared(TV2, 256) && Cleared(0, i)
      {
        ReleaseSlot(i);
      }
      assert Cleared(0, SLOTS);
      NothingLinked();
      pool.FullPools();
    }

    lemma StartClosing()
      requires Valid() && Cal().phase.Idle?
      ensures Closing() && |wheel.lists.slots| == SLOTS
    {
      hide GrowingPool.Valid, Lists.Valid, IsRun, CellsMirror, NodesMirror;
      wheel.lists.Shape();
    }
  }

  /** What the 64-bit clock sees of the ticks from tick to target. */
  function Gap(tick: nat, target: nat): nat
    requires tick <= target
  {
    (target - tick) % TWO64
  }

  lemma OneTickLess(tick: nat, target: nat)
    requires tick <= target && tick % TWO64 != target % TWO64
    ensures tick < target && Gap(tick, target) == Gap(tick + 1, target) + 1
  {
  }

  lemma GapClosed(tick: nat, target: nat)
    requires tick <= target && tick % TWO64 == target % TWO64
    ensures Gap(tick, target) == 0
  {
  }
}
