// Who owns what: the relation between the flat calendar and the cells, lists and node maps of the
// program, on values.

module TimerLedger {
  import opened TimerElements
  import opened Wheel
  import opened Calendar

  type Cell = TimerElement

  /** What a cell in use says: its incarnation, its timer data, and m_bErased. */
  datatype Record = Record(uid: nat, timer: Timer, erased: bool)

  /**
   * used: the cells in use, without those that SetTimerCron lost; linked: those in some list; elem: the cell of each
   * incarnation; maps and alive: the m_oTimerElementMap of each node, and whether the node still exists.
   */
  datatype Ledger = Ledger(
    used: set<Cell>,
    linked: set<Cell>,
    records: map<Cell, Record>,
    elem: map<nat, Cell>,
    maps: seq<map<u64, Cell>>,
    alive: seq<bool>)

  ghost predicate CellsOk(c: State, l: Ledger) {
    && l.records.Keys == l.used
    && l.elem.Keys == c.timers.Keys
    && (forall u :: u in l.elem ==> l.elem[u] in l.used && l.records[l.elem[u]] == Record(u, c.timers[u], !Owned(c, u)))
    && (forall e :: e in l.used ==> l.records[e].uid in l.elem && l.elem[l.records[e].uid] == e)
  }

  /** Every cell in use is linked, except the one whose callback is running. */
  ghost predicate LinksOk(c: State, l: Ledger) {
    l.linked == l.used - (if c.phase.InCallback? && c.phase.uid in l.elem then {l.elem[c.phase.uid]} else {})
  }

  ghost predicate NodesOk(c: State, l: Ledger) {
    && |l.maps| == |l.alive|
    && (forall n :: 0 <= n < |l.alive| ==> (l.alive[n] <==> n !in c.dead))
    && (forall n :: n in c.dead ==> n < |l.alive|)
    && (forall k :: k in c.owner ==> k.0 < |l.maps| && k.1 in l.maps[k.0])
    && (forall n, id :: 0 <= n < |l.maps| && id in l.maps[n] ==>
          && (n, id) in c.owner
          && c.owner[(n, id)] in l.elem
          && l.elem[c.owner[(n, id)]] == l.maps[n][id])
  }

  /**
   * The conservation law: cells in use and not lost, incarnations on the calendar, linked cells, un-erased cells and
   * node map entries determine each other.
   */
  ghost predicate Consistent(c: State, l: Ledger) {
    Inv(c) && CellsOk(c, l) && LinksOk(c, l) && NodesOk(c, l)
  }

  function Erase(records: map<Cell, Record>, e: Cell): map<Cell, Record>
    requires e in records
  {
    records[e := records[e].(erased := true)]
  }

  /** The cells a node maps get erased. */
  function EraseAll(records: map<Cell, Record>, m: map<u64, Cell>): (r: map<Cell, Record>)
    ensures r.Keys == records.Keys
  {
    map e | e in records :: if e in m.Values then records[e].(erased := true) else records[e]
  }

  // ----- what each operation does to the ledger

  function AfterSet(l: Ledger, e: Cell, r: Record): Ledger
    requires r.timer.node < |l.maps|
    requires r.timer.id in l.maps[r.timer.node] ==> l.maps[r.timer.node][r.timer.id] in l.records
  {
    var n, id: u64 := r.timer.node, r.timer.id;
    var m: map<u64, Cell> := l.maps[n][id := e];
    var erased := if id in l.maps[n] then Erase(l.records, l.maps[n][id]) else l.records;
    l.(used := l.used + {e}, linked := l.linked + {e}, records := erased[e := r],
       elem := l.elem[r.uid := e], maps := l.maps[n := m])
  }

  function AfterKill(l: Ledger, n: nat, id: u64): Ledger
    requires n < |l.maps| && id in l.maps[n] && l.maps[n][id] in l.records
  {
    l.(records := Erase(l.records, l.maps[n][id]), maps := l.maps[n := l.maps[n] - {id}])
  }

  function AfterKillAll(l: Ledger, n: nat): Ledger
    requires n < |l.maps|
  {
    l.(records := EraseAll(l.records, l.maps[n]), maps := l.maps[n := map[]])
  }

  function AfterDestroy(l: Ledger, n: nat): Ledger
    requires n < |l.maps| == |l.alive|
  {
    AfterKillAll(l, n).(alive := l.alive[n := false])
  }

  function AfterUnlink(l: Ledger, e: Cell): Ledger {
    l.(linked := l.linked - {e})
  }

  function AfterRelease(l: Ledger, e: Cell): Ledger
    requires e in l.records
  {
    l.(used := l.used - {e}, linked := l.linked - {e}, records := l.records - {e}, elem := l.elem - {l.records[e].uid})
  }

  function AfterRequeue(l: Ledger, e: Cell, next: u64, due: nat): Ledger
    requires e in l.records
  {
    var r := l.records[e];
    l.(linked := l.linked + {e}, records := l.records[e := r.(timer := r.timer.(next := next, due := due))])
  }

  /** AfterSet, cell by cell and node by node. */
  lemma AfterSetParts(l: Ledger, e: Cell, r: Record)
    requires r.timer.node < |l.maps| && l.records.Keys == l.used && e !in l.used
    requires r.timer.id in l.maps[r.timer.node] ==> l.maps[r.timer.node][r.timer.id] in l.records
    ensures var n, id, m := r.timer.node, r.timer.id, AfterSet(l, e, r);
            var mapped: map<u64, Cell> := l.maps[n][id := e];
            && m.used == l.used + {e} && m.linked == l.linked + {e} && m.elem == l.elem[r.uid := e]
            && m.alive == l.alive && m.maps == l.maps[n := mapped]
            && m.records.Keys == m.used && m.records[e] == r
            && forall x :: x in l.used ==>
                 m.records[x] == if id in l.maps[n] && x == l.maps[n][id] then l.records[x].(erased := true)
                                 else l.records[x]
  {
  }

  lemma AfterKillParts(l: Ledger, n: nat, id: u64)
    requires n < |l.maps| && l.records.Keys == l.used && id in l.maps[n] && l.maps[n][id] in l.records
    ensures var m := AfterKill(l, n, id);
            && m.used == l.used && m.linked == l.linked && m.elem == l.elem && m.alive == l.alive
            && m.maps == l.maps[n := l.maps[n] - {id}]
            && m.records.Keys == m.used
            && forall x :: x in l.used ==>
                 m.records[x] == if x == l.maps[n][id] then l.records[x].(erased := true) else l.records[x]
  {
  }

  lemma AfterKillAllParts(l: Ledger, n: nat)
    requires n < |l.maps| == |l.alive| && l.records.Keys == l.used
    ensures var m, d := AfterKillAll(l, n), AfterDestroy(l, n);
            && m.used == l.used && m.linked == l.linked && m.elem == l.elem && m.alive == l.alive
            && m.maps == l.maps[n := map[]]
            && m.records.Keys == m.used
            && (forall x :: x in l.used ==>
                  m.records[x] == if x in l.maps[n].Values then l.records[x].(erased := true) else l.records[x])
            && d == m.(alive := l.alive[n := false])
  {
  }

  lemma AllErased(l: Ledger, n: nat)
    requires n < |l.maps| && l.records.Keys == l.used
    ensures var m := AfterKillAll(l, n);
            && m.used == l.used && m.records.Keys == l.used
            && forall x :: x in l.used ==>
                 m.records[x] == if x in l.maps[n].Values then l.records[x].(erased := true) else l.records[x]
  {
  }

  lemma AfterRequeueParts(l: Ledger, e: Cell, next: u64, due: nat)
    requires e in l.records && l.records.Keys == l.used
    ensures var m := AfterRequeue(l, e, next, due);
            && m.used == l.used && m.records.Keys == m.used
            && m.records[e] == l.records[e].(timer := l.records[e].timer.(next := next, due := due))
            && forall x :: x in l.used && x != e ==> m.records[x] == l.records[x]
  {
  }

  // ----- each keeps the relation

  /** The cell a node maps an id to is the one of the incarnation that owns the id. */
  lemma MappedCell(c: State, l: Ledger, n: nat, id: u64)
    requires Inv(c) && CellsOk(c, l) && NodesOk(c, l) && n < |l.maps| && id in l.maps[n]
    ensures var e := l.maps[n][id];
            && e in l.used && !l.records[e].erased
            && (n, id) in c.owner && c.owner[(n, id)] == l.records[e].uid
            && l.records[e].timer.node == n && l.records[e].timer.id == id
    ensures forall x :: x in l.used && x != l.maps[n][id] && !l.records[x].erased ==>
              l.records[x].timer.node != n || l.records[x].timer.id != id
  {
    var u := c.owner[(n, id)];
    assert l.elem[u] == l.maps[n][id];
    assert Owned(c, u);
    forall x | x in l.used && x != l.maps[n][id] && !l.records[x].erased
      ensures l.records[x].timer.node != n || l.records[x].timer.id != id
    {
      assert Owned(c, l.records[x].uid);
    }
  }

  lemma NotMapped(c: State, l: Ledger, n: nat, id: u64)
    requires Inv(c) && CellsOk(c, l) && NodesOk(c, l) && n < |l.maps| && id !in l.maps[n]
    ensures (n, id) !in c.owner
    ensures forall x :: x in l.used && !l.records[x].erased ==>
              l.records[x].timer.node != n || l.records[x].timer.id != id
  {
    forall x | x in l.used && !l.records[x].erased
      ensures l.records[x].timer.node != n || l.records[x].timer.id != id
    {
      assert Owned(c, l.records[x].uid);
    }
  }

  /** Ownership after a change of owner that touches only the given keys. */
  lemma OwnersAfter(c: State, d: State, gone: set<(nat, u64)>)
    requires Inv(c)
    requires forall u :: u in c.timers ==>
               u in d.timers && d.timers[u].node == c.timers[u].node && d.timers[u].id == c.timers[u].id
    requires forall k :: k in c.owner && k !in gone ==> k in d.owner && d.owner[k] == c.owner[k]
    requires forall k :: k in d.owner && k !in gone ==> k in c.owner
    requires forall k :: k in gone && k in d.owner ==> d.owner[k] !in c.timers
    ensures forall u :: u in c.timers ==>
              (Owned(d, u) <==> Owned(c, u) && (c.timers[u].node, c.timers[u].id) !in gone)
  {
  }

  /** State c with one more timer, which takes over its node's entry for its id. */
  ghost predicate TimerAdded(c: State, d: State, t: Timer) {
    && d.timers == c.timers[c.issued := t] && c.issued !in c.timers
    && d.owner == c.owner[(t.node, t.id) := c.issued]
  }

  /** After the addition the new incarnation is owned, and only the one it replaces loses its owner. */
  lemma OwnersAfterSet(c: State, d: State, t: Timer)
    requires Inv(c) && TimerAdded(c, d, t)
    ensures Owned(d, c.issued)
    ensures forall u :: u in c.timers ==>
              (Owned(d, u) <==> Owned(c, u) && !(c.timers[u].node == t.node && c.timers[u].id == t.id))
  {
    OwnersAfter(c, d, {(t.node, t.id)});
  }

  lemma SetCells(c: State, d: State, l: Ledger, e: Cell, t: Timer)
    requires Inv(c) && CellsOk(c, l) && NodesOk(c, l) && e !in l.used && t.node < |l.maps| && TimerAdded(c, d, t)
    ensures t.id in l.maps[t.node] ==> l.maps[t.node][t.id] in l.records
    ensures CellsOk(d, AfterSet(l, e, Record(c.issued, t, false)))
  {
    hide NodesOk, Inv, Owned;
    ReplacedCell(c, l, t);
    OwnersAfterSet(c, d, t);
    var m := AfterSet(l, e, Record(c.issued, t, false));
    forall u | u in m.elem
      ensures m.elem[u] in m.used && m.records[m.elem[u]] == Record(u, d.timers[u], !Owned(d, u))
    {
      if u != c.issued {
        assert l.records[l.elem[u]] == Record(u, c.timers[u], !Owned(c, u));
      }
    }
  }

  /** The cell a new timer replaces is the un-erased one with its node and id, if there is one. */
  lemma ReplacedCell(c: State, l: Ledger, t: Timer)
    requires Inv(c) && CellsOk(c, l) && NodesOk(c, l) && t.node < |l.maps|
    ensures t.id in l.maps[t.node] ==> l.maps[t.node][t.id] in l.used
    ensures forall x :: x in l.used ==>
              (t.id in l.maps[t.node] && x == l.maps[t.node][t.id]
               <==> !l.records[x].erased && l.records[x].timer.node == t.node && l.records[x].timer.id == t.id)
  {
    hide NodesOk, Inv, Owned;
    if t.id in l.maps[t.node] { MappedCell(c, l, t.node, t.id); } else { NotMapped(c, l, t.node, t.id); }
  }

  lemma AliveNode(c: State, l: Ledger, n: nat)
    requires Consistent(c, l) && n < |l.maps| && l.alive[n]
    ensures n !in c.dead
  {
  }

  lemma MapsAreUsed(c: State, l: Ledger)
    requires Consistent(c, l)
    ensures forall n, id :: 0 <= n < |l.maps| && id in l.maps[n] ==> l.maps[n][id] in l.used
    ensures l.records.Keys == l.used
  {
  }

  lemma NewUid(c: State, l: Ledger)
    requires Consistent(c, l)
    ensures c.issued !in l.elem
  {
  }

  lemma LinkedAreUsed(c: State, l: Ledger)
    requires Consistent(c, l)
    ensures l.linked <= l.used
  {
  }

  lemma Keys(c: State, l: Ledger)
    requires CellsOk(c, l)
    ensures l.elem.Keys == c.timers.Keys && l.records.Keys == l.used
  {
  }

  lemma SetNodes(c: State, d: State, l: Ledger, e: Cell, t: Timer)
    requires NodesOk(c, l) && l.elem.Keys == c.timers.Keys && t.node < |l.maps| && TimerAdded(c, d, t)
    requires t.id in l.maps[t.node] ==> l.maps[t.node][t.id] in l.records
    requires d.dead == c.dead
    ensures NodesOk(d, AfterSet(l, e, Record(c.issued, t, false)))
  {
    var m := AfterSet(l, e, Record(c.issued, t, false));
    forall n, id | 0 <= n < |m.maps| && id in m.maps[n]
      ensures (n, id) in d.owner && d.owner[(n, id)] in m.elem && m.elem[d.owner[(n, id)]] == m.maps[n][id]
    {
      if (n, id) != (t.node, t.id) { assert id in l.maps[n]; }
    }
  }

  lemma SetKeeps(c: State, l: Ledger, ev: Event, e: Cell)
    requires Consistent(c, l) && ev.Set? && Enabled(c, ev) && e !in l.used && ev.node < |l.maps|
    ensures ev.id in l.maps[ev.node] ==> l.maps[ev.node][ev.id] in l.records
    ensures var d := Step(c, ev);
            Consistent(d, AfterSet(l, e, Record(c.issued, d.timers[c.issued], false)))
  {
    hide CellsOk, NodesOk, Inv;
    StepKeepsInv(c, ev);
    NotYetIssued(c);
    Keys(c, l);
    var d := Step(c, ev);
    SetCells(c, d, l, e, d.timers[c.issued]);
    SetNodes(c, d, l, e, d.timers[c.issued]);
    SetLinks(c, l, ev, e);
  }

  lemma NotYetIssued(c: State)
    requires Inv(c)
    ensures c.issued !in c.timers
  {
  }

  lemma SetLinks(c: State, l: Ledger, ev: Event, e: Cell)
    requires Inv(c) && CellsOk(c, l) && LinksOk(c, l) && ev.Set? && Enabled(c, ev) && e !in l.used && ev.node < |l.maps|
    requires ev.id in l.maps[ev.node] ==> l.maps[ev.node][ev.id] in l.records
    ensures var d := Step(c, ev);
            LinksOk(d, AfterSet(l, e, Record(c.issued, d.timers[c.issued], false)))
  {
  }

  lemma KillCells(c: State, d: State, l: Ledger, n: nat, id: u64)
    requires Inv(c) && CellsOk(c, l) && NodesOk(c, l) && n < |l.maps| && id in l.maps[n]
    requires d.timers == c.timers && d.owner == c.owner - {(n, id)}
    ensures l.maps[n][id] in l.records && CellsOk(d, AfterKill(l, n, id))
  {
    hide NodesOk, Inv, Owned;
    MappedCell(c, l, n, id);
    OwnersAfter(c, d, {(n, id)});
    var m := AfterKill(l, n, id);
    forall u | u in m.elem
      ensures m.elem[u] in m.used && m.records[m.elem[u]] == Record(u, d.timers[u], !Owned(d, u))
    {
      assert l.records[l.elem[u]] == Record(u, c.timers[u], !Owned(c, u));
    }
  }

  lemma KillNodes(c: State, d: State, l: Ledger, n: nat, id: u64)
    requires NodesOk(c, l) && n < |l.maps| && id in l.maps[n] && l.maps[n][id] in l.records
    requires d.dead == c.dead && d.owner == c.owner - {(n, id)}
    ensures NodesOk(d, AfterKill(l, n, id))
  {
  }

  lemma KillKeeps(c: State, l: Ledger, n: nat, id: u64)
    requires Consistent(c, l) && Enabled(c, Kill(n, id)) && n < |l.maps| && id in l.maps[n]
    ensures l.maps[n][id] in l.records
    ensures Consistent(Step(c, Kill(n, id)), AfterKill(l, n, id))
  {
    hide CellsOk, NodesOk, Inv;
    StepKeepsInv(c, Kill(n, id));
    KillCells(c, Step(c, Kill(n, id)), l, n, id);
    KillNodes(c, Step(c, Kill(n, id)), l, n, id);
  }

  /** The cells a node maps are the un-erased ones with its number. */
  lemma NodeCells(c: State, l: Ledger, n: nat)
    requires Inv(c) && CellsOk(c, l) && NodesOk(c, l) && n < |l.maps| && l.records.Keys == l.used
    ensures forall x :: x in l.used ==>
              (x in l.maps[n].Values <==> !l.records[x].erased && l.records[x].timer.node == n)
  {
    hide Inv, CellsOk, NodesOk;
    forall x | x in l.used
      ensures x in l.maps[n].Values <==> !l.records[x].erased && l.records[x].timer.node == n
    {
      if x in l.maps[n].Values {
        var id :| id in l.maps[n] && l.maps[n][id] == x;
        MappedCell(c, l, n, id);
      } else if !l.records[x].erased && l.records[x].timer.node == n {
        var id := l.records[x].timer.id;
        if id in l.maps[n] { MappedCell(c, l, n, id); } else { NotMapped(c, l, n, id); }
      }
    }
  }

  lemma OwnersAfterClear(c: State, d: State, n: nat)
    requires Inv(c) && d.timers == c.timers && d.owner == WithoutNode(c.owner, n)
    ensures forall u :: u in c.timers ==> (Owned(d, u) <==> Owned(c, u) && c.timers[u].node != n)
  {
  }

  lemma KillAllCells(c: State, d: State, l: Ledger, n: nat)
    requires Inv(c) && CellsOk(c, l) && NodesOk(c, l) && n < |l.maps|
    requires d.timers == c.timers && d.owner == WithoutNode(c.owner, n)
    ensures CellsOk(d, AfterKillAll(l, n))
  {
    hide Inv, Owned, NodesOk;
    NodeCells(c, l, n);
    OwnersAfterClear(c, d, n);
    var m := AfterKillAll(l, n);
    forall u | u in m.elem
      ensures m.elem[u] in m.used && m.records[m.elem[u]] == Record(u, d.timers[u], !Owned(d, u))
    {
      var e, t := l.elem[u], c.timers[u];
      assert l.records[e] == Record(u, t, !Owned(c, u));
    }
  }

  lemma KillAllNodes(c: State, d: State, l: Ledger, n: nat)
    requires NodesOk(c, l) && n < |l.maps| && d.dead == c.dead && d.owner == WithoutNode(c.owner, n)
    ensures NodesOk(d, AfterKillAll(l, n))
  {
  }

  lemma KillAllKeeps(c: State, l: Ledger, n: nat)
    requires Consistent(c, l) && Enabled(c, KillAll(n)) && n < |l.maps|
    ensures Consistent(Step(c, KillAll(n)), AfterKillAll(l, n))
  {
    hide CellsOk, NodesOk, Inv;
    StepKeepsInv(c, KillAll(n));
    Keys(c, l);
    KillAllCells(c, Step(c, KillAll(n)), l, n);
    KillAllNodes(c, Step(c, KillAll(n)), l, n);
  }

  lemma DestroyNodes(c: State, d: State, l: Ledger, n: nat)
    requires NodesOk(c, l) && n < |l.maps| && d.dead == c.dead + {n} && d.owner == WithoutNode(c.owner, n)
    ensures NodesOk(d, AfterDestroy(l, n))
  {
  }

  lemma CellsIgnoreNodes(c: State, l: Ledger, m: Ledger)
    requires CellsOk(c, l) && m.used == l.used && m.records == l.records && m.elem == l.elem
    ensures CellsOk(c, m)
  {
  }

  lemma DestroyKeeps(c: State, l: Ledger, n: nat)
    requires Consistent(c, l) && Enabled(c, Destroy(n)) && n < |l.maps| == |l.alive|
    ensures Consistent(Step(c, Destroy(n)), AfterDestroy(l, n))
  {
    hide NodesOk, Inv, CellsOk;
    StepKeepsInv(c, Destroy(n));
    Keys(c, l);
    KillAllCells(c, Step(c, Destroy(n)), l, n);
    CellsIgnoreNodes(Step(c, Destroy(n)), AfterKillAll(l, n), AfterDestroy(l, n));
    DestroyNodes(c, Step(c, Destroy(n)), l, n);
  }

  lemma FireKeeps(c: State, l: Ledger, e: Cell)
    requires Consistent(c, l) && e in l.linked && Enabled(c, Fire(l.records[e].uid))
    ensures Consistent(Step(c, Fire(l.records[e].uid)), AfterUnlink(l, e))
  {
    hide Inv, NodesOk;
    StepKeepsInv(c, Fire(l.records[e].uid));
    SameOwners(c, Step(c, Fire(l.records[e].uid)), AfterUnlink(l, e), l);
  }

  /** Cells and nodes do not notice a step that changes neither timers nor owners. */
  lemma SameOwners(c: State, d: State, m: Ledger, l: Ledger)
    requires CellsOk(c, l) && NodesOk(c, l)
    requires d.timers == c.timers && d.owner == c.owner && d.dead == c.dead
    requires m.used == l.used && m.records == l.records && m.elem == l.elem && m.maps == l.maps && m.alive == l.alive
    ensures CellsOk(d, m) && NodesOk(d, m)
  {
  }

  lemma QuietEventKeeps(c: State, l: Ledger, ev: Event)
    requires Consistent(c, l) && Enabled(c, ev)
    requires ev.Sample? || ev.StartRun? || ev.BeginTick? || ev.EndTick?
    ensures Consistent(Step(c, ev), l)
  {
    hide Inv, NodesOk;
    StepKeepsInv(c, ev);
    SameOwners(c, Step(c, ev), l, l);
  }

  /** An un-owned incarnation leaves the calendar and its cell is released. */
  lemma ReleaseCells(c: State, d: State, l: Ledger, e: Cell)
    requires CellsOk(c, l) && e in l.used && l.records[e].erased
    requires d.timers == c.timers - {l.records[e].uid} && d.owner == c.owner
    ensures CellsOk(d, AfterRelease(l, e))
  {
    var m := AfterRelease(l, e);
    forall u | u in m.elem
      ensures m.elem[u] in m.used && m.records[m.elem[u]] == Record(u, d.timers[u], !Owned(d, u))
    {
      assert l.records[l.elem[u]] == Record(u, c.timers[u], !Owned(c, u));
    }
  }

  /** No node maps an erased cell. */
  lemma ErasedUnmapped(c: State, l: Ledger, e: Cell)
    requires Inv(c) && CellsOk(c, l) && NodesOk(c, l) && e in l.used && l.records[e].erased
    ensures forall n, id :: 0 <= n < |l.maps| && id in l.maps[n] ==> c.owner[(n, id)] != l.records[e].uid
  {
    hide Inv, Owned, NodesOk;
    forall n, id | 0 <= n < |l.maps| && id in l.maps[n]
      ensures (n, id) in c.owner && c.owner[(n, id)] != l.records[e].uid
    {
      MappedCell(c, l, n, id);
    }
  }

  lemma ReleaseNodes(c: State, d: State, l: Ledger, e: Cell)
    requires NodesOk(c, l) && e in l.records
    requires forall n, id :: 0 <= n < |l.maps| && id in l.maps[n] ==> c.owner[(n, id)] != l.records[e].uid
    requires d.dead == c.dead && d.owner == c.owner
    ensures NodesOk(d, AfterRelease(l, e))
  {
  }

  lemma DropKeeps(c: State, l: Ledger, e: Cell)
    requires Consistent(c, l) && e in l.linked && Enabled(c, Drop(l.records[e].uid))
    ensures Consistent(Step(c, Drop(l.records[e].uid)), AfterRelease(l, e))
  {
    hide Inv, NodesOk;
    var d := Step(c, Drop(l.records[e].uid));
    StepKeepsInv(c, Drop(l.records[e].uid));
    assert l.records[e] == Record(l.records[e].uid, c.timers[l.records[e].uid], !Owned(c, l.records[e].uid));
    ReleaseCells(c, d, l, e);
    ErasedUnmapped(c, l, e);
    ReleaseNodes(c, d, l, e);
  }

  lemma ReturnReleases(c: State, l: Ledger, e: Cell, delay: int)
    requires Consistent(c, l) && e in l.used && c.phase == InCallback(l.records[e].uid) && l.records[e].erased
    ensures Consistent(Step(c, Return(delay)), AfterRelease(l, e))
  {
    hide Inv, NodesOk;
    var d := Step(c, Return(delay));
    assert l.records[e] == Record(l.records[e].uid, c.timers[l.records[e].uid], !Owned(c, l.records[e].uid));
    StepKeepsInv(c, Return(delay));
    ReleaseCells(c, d, l, e);
    ErasedUnmapped(c, l, e);
    ReleaseNodes(c, d, l, e);
  }

  lemma RequeueCells(c: State, d: State, l: Ledger, e: Cell, next: u64, due: nat)
    requires CellsOk(c, l) && e in l.used
    requires var u := l.records[e].uid;
             u in c.timers && d.timers == c.timers[u := c.timers[u].(next := next, due := due)] && d.owner == c.owner
    ensures CellsOk(d, AfterRequeue(l, e, next, due))
  {
    hide Owned;
    OwnersAfterRequeue(c, d, l.records[e].uid, next, due);
    var m := AfterRequeue(l, e, next, due);
    forall u | u in m.elem
      ensures m.elem[u] in m.used && m.records[m.elem[u]] == Record(u, d.timers[u], !Owned(d, u))
    {
      assert l.records[l.elem[u]] == Record(u, c.timers[u], !Owned(c, u));
    }
  }

  lemma OwnersAfterRequeue(c: State, d: State, u: nat, next: u64, due: nat)
    requires u in c.timers && d.timers == c.timers[u := c.timers[u].(next := next, due := due)] && d.owner == c.owner
    ensures forall v :: v in c.timers ==> (Owned(d, v) <==> Owned(c, v))
  {
  }

  lemma RecordOf(c: State, l: Ledger, e: Cell)
    requires CellsOk(c, l) && e in l.used
    ensures var u := l.records[e].uid;
            u in l.elem && l.elem[u] == e && u in c.timers && l.records[e] == Record(u, c.timers[u], !Owned(c, u))
  {
  }

  lemma ReturnStep(c: State, delay: int)
    requires c.phase.InCallback? && c.phase.uid in c.timers && Owned(c, c.phase.uid)
    ensures var u, d := c.phase.uid, Step(c, Return(delay));
            var next := Rescheduled(c.timers[u], c.target, delay);
            && d.timers == c.timers[u := c.timers[u].(next := next, due := DueTick(c.tick, true, next))]
            && d.owner == c.owner && d.dead == c.dead && d.phase == Dispatching
  {
  }

  lemma ReturnRequeues(c: State, l: Ledger, e: Cell, delay: int)
    requires Consistent(c, l) && e in l.used && c.phase == InCallback(l.records[e].uid) && !l.records[e].erased
    ensures var next := Rescheduled(l.records[e].timer, c.target, delay);
            Consistent(Step(c, Return(delay)), AfterRequeue(l, e, next, DueTick(c.tick, true, next)))
  {
    hide Inv, Rescheduled, DueTick, CellsOk, NodesOk, Owned, Step;
    RecordOf(c, l, e);
    Keys(c, l);
    ReturnStep(c, delay);
    StepKeepsInv(c, Return(delay));
    var d, next := Step(c, Return(delay)), Rescheduled(l.records[e].timer, c.target, delay);
    RequeueCells(c, d, l, e, next, DueTick(c.tick, true, next));
    RequeueNodes(c, d, l, e, next, DueTick(c.tick, true, next));
  }

  lemma RequeueNodes(c: State, d: State, l: Ledger, e: Cell, next: u64, due: nat)
    requires NodesOk(c, l) && e in l.records && d.dead == c.dead && d.owner == c.owner
    ensures NodesOk(d, AfterRequeue(l, e, next, due))
  {
  }

  lemma NewNodeKeeps(c: State, l: Ledger)
    requires Consistent(c, l)
    ensures Consistent(c, l.(maps := l.maps + [map[]], alive := l.alive + [true]))
  {
  }
}
