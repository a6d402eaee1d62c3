// The wheel half of CDMTimerModule: the slots, m_qwLastTime, and the moves between slots.

module TimerWheel {
  import opened TimerElements
  import opened DmList
  import opened Wheel
  import opened TimerLists

  /** The relinks behind an element of slot k and those before it make up its plan. */
  ghost predicate OnPlan(e: Entry, k: nat)
    reads e`due, e`touch, e`hops, e`plan
  {
    e.plan == e.hops + if TV2 <= k < SLOTS && e.touch <= e.due then 1 + Relinks(e.touch, e.due) else 0
  }

  /** Added at tick, an element that does not go to tv1 is relinked as often as Relinks says. */
  lemma PlanFits(e: Entry, tick: nat, k: nat)
    requires tick <= e.due && e.touch == TouchOf(tick, e.due)
    requires e.plan == e.hops + if k < TV2 then 0 else Relinks(tick, e.due)
    requires k >= TV2 ==> e.due - tick >= G2 && k < SLOTS
    ensures OnPlan(e, k)
  {
  }

  /** What a cascade keeps of an element, and the relinks it counts. */
  datatype Traits = Traits(due: nat, plan: nat, hops: nat)

  ghost function TraitsOf(x: Entry): Traits
    reads x`due, x`plan, x`hops
  {
    Traits(x.due, x.plan, x.hops)
  }

  /** One step along a chain that has not ended. */
  lemma ChainStep(rest: seq<Entry>, local: Entry)
    requires Chain(rest, local) && Distinct(rest) && local !in rest && At(local, rest, 0) != local
    ensures rest != [] && rest[0] == At(local, rest, 0) && rest[0].next == At(local, rest[1..], 0)
    ensures Chain(rest[1..], local) && Distinct(rest[1..])
    ensures forall x :: x in rest[1..] <==> x in rest && x != rest[0]
  {
  }

  lemma ChainEnd(rest: seq<Entry>, local: Entry)
    requires local !in rest && At(local, rest, 0) == local
    ensures rest == []
  {
  }

  class WheelState {
    const lists: Lists
    var qwLastTime: u64

    // m_qwLastTime without its wrap-around, and whether its slot is detached and being dispatched
    ghost var tick: nat
    ghost var dispatching: bool

    /** The first tick whose slot has not been detached. */
    ghost function Frontier(): nat
      reads this
    {
      if dispatching then tick + 1 else tick
    }

    ghost predicate InPlace(e: Entry, k: nat)
      reads this, e`due, e`touch, e`qwNextTime, e`hops, e`plan
    {
      && OnPlan(e, k)
      && if k == SLOTS then e.due == tick
         else
           && Placed(k, e.due, e.touch, Frontier())
           && (k >= TV2 ==> e.qwNextTime == e.due % TWO64)
    }

    lemma IsInPlace(e: Entry, k: nat)
      requires k != SLOTS && OnPlan(e, k) && Placed(k, e.due, e.touch, Frontier())
      requires k >= TV2 ==> e.qwNextTime == e.due % TWO64
      ensures InPlace(e, k)
    {
    }

    ghost function Linked(): set<Entry>
      reads lists
    {
      lists.where.Keys
    }

    ghost predicate AllInPlace()
      reads this, lists, Linked()`due, Linked()`touch, Linked()`qwNextTime, Linked()`hops, Linked()`plan
    {
      forall e :: e in lists.where ==> InPlace(e, lists.where[e])
    }

    ghost predicate Valid()
      reads this, lists, lists.Nodes()`next, lists.Nodes()`prev
      reads Linked()`due, Linked()`touch, Linked()`qwNextTime, Linked()`hops, Linked()`plan
    {
      && lists.Valid()
      && qwLastTime == tick % TWO64
      && |lists.heads| == (if dispatching then SLOTS + 1 else SLOTS)
      && AllInPlace()
    }

    constructor (last: u64, ghost start: nat)
      requires last == start % TWO64
      ensures Valid() && !dispatching && tick == start && qwLastTime == last
      ensures Linked() == {} && fresh(lists) && fresh(lists.heads)
    {
      lists := new Lists();
      qwLastTime, tick, dispatching := last, start, false;
    }

    /** The slot for an expiry; one that is past goes to the slot of the current tick. */
    method ChooseSlot(qwNextTime: u64) returns (k: nat)
      ensures k == SlotOf(qwNextTime, qwLastTime)
    {
      var qwExpires: int := qwNextTime;
      var idx: u64 := (qwExpires - qwLastTime) % TWO64;
      if idx < 0x100 {
        k := qwExpires % 256;
      } else if idx < 0x4000 {
        k := TV2 + qwExpires / 0x100 % 64;
      } else if idx < 0x10_0000 {
        k := TV3 + qwExpires / 0x4000 % 64;
      } else if idx < 0x400_0000 {
        k := TV4 + qwExpires / 0x10_0000 % 64;
      } else if idx >= TWO63 {
        k := qwLastTime % 256;
      } else {
        if idx > 0xffff_ffff {
          idx := 0xffff_ffff;
          qwExpires := (idx + qwLastTime) % TWO64;
        }
        k := TV5 + qwExpires / 0x400_0000 % 64;
      }
      IsSlotOf(qwNextTime, qwLastTime, k);
    }

    /**
     * Links an unlinked element, which cascades have relinked `hops` times so far, into the slot its expiry
     * asks for.
     */
    method AddTimerElement(e: Entry, ghost hops: nat)
      requires Valid() && e !in lists.Nodes()
      modifies lists, e`next, e`prev, e`due, e`touch, e`hops, e`plan, lists.Nodes()`next, lists.Nodes()`prev
      ensures Valid()
      ensures lists.where == old(lists.where)[e := SlotOf(e.qwNextTime, qwLastTime)]
      ensures lists.heads == old(lists.heads)
      ensures lists.Local() == old(lists.Local())
      ensures e.due == DueTick(tick, dispatching, e.qwNextTime)
      ensures lists.where[e] >= TV2 ==> tick < e.touch
      ensures tick <= e.due && e.hops == hops
      ensures e.plan == hops + (if lists.where[e] < TV2 then 0 else Relinks(tick, e.due))
      ensures e.plan <= hops + 4 + (e.due - tick) / (TWO32 - G5)
    {
      hide Lists.Valid, InPlace, SlotOf, DueTick, TouchOf, Relinks, OnPlan;
      var k := ChooseSlot(e.qwNextTime);
      AddPlaces(tick, dispatching, e.qwNextTime);
      SlotRange(e.qwNextTime, qwLastTime);
      lists.Shape();
      e.due := DueTick(tick, dispatching, e.qwNextTime);
      e.touch := TouchOf(tick, e.due);
      e.hops, e.plan := hops, hops + if k < TV2 then 0 else Relinks(tick, e.due);
      PlanFits(e, tick, k);
      RelinkBound(tick, e.due);
      IsInPlace(e, k);
      lists.AddTail(e, k);
    }

    /** No element of the level of width g is to be visited at this very tick. */
    ghost predicate Cold(g: int)
      reads this, lists, Linked()`touch
    {
      forall e :: e in lists.where && TV2 <= lists.where[e] < SLOTS && Width(lists.where[e]) == g ==> e.touch != tick
    }

    /** An element of a coarse slot is visited at this tick exactly if its slot is. */
    lemma VisitedNow(e: Entry, k: nat)
      requires InPlace(e, k) && !dispatching && TV2 <= k < SLOTS
      ensures e.touch == tick <==> Visits(Width(k), k - FirstSlot(Width(k)), tick)
      ensures tick <= e.due < tick + TWO63 && e.qwNextTime == e.due % TWO64
      ensures e.touch == tick ==> e.plan == e.hops + 1 + Relinks(tick, e.due)
    {
      hide Relinks;
      FirstVisit(Width(k), k - FirstSlot(Width(k)), e.due, e.touch, tick, tick);
    }

    lemma Current()
      requires Valid()
      ensures qwLastTime == tick % TWO64
    {
    }

    /** Entry x of an abandoned list can be put back without changing when it is due. */
    ghost predicate Relinkable(x: Entry)
      reads this, lists, x`due, x`qwNextTime, x`hops, x`plan
    {
      x !in lists.Nodes() && x.qwNextTime == x.due % TWO64 && tick <= x.due < tick + TWO63
      && x.plan == x.hops + 1 + Relinks(tick, x.due)
    }

    /** Relinked into slot k: due when it was, on the plan it had, one relink further, and not to be visited now. */
    ghost predicate Relinked(x: Entry, was: Traits, k: nat)
      reads `tick, x`due, x`touch, x`hops, x`plan
    {
      x.due == was.due && x.plan == was.plan && x.hops == was.hops + 1 && (k >= TV2 ==> tick < x.touch)
    }

    lemma Unlinked(x: Entry)
      requires Relinkable(x)
      ensures x !in lists.Nodes() && x !in lists.where
    {
    }

    /** Puts one entry of the abandoned list back; the others keep their links and stay as they are. */
    method RelinkOne(x: Entry, ghost others: set<Entry>)
      requires Valid() && !dispatching && Relinkable(x) && x !in others
      requires forall y :: y in others ==> Relinkable(y)
      modifies lists, x`next, x`prev, x`due, x`touch, x`hops, x`plan, lists.Nodes()`next, lists.Nodes()`prev
      ensures Valid() && lists.heads == old(lists.heads)
      ensures x in lists.where && lists.where == old(lists.where)[x := lists.where[x]]
      ensures Relinked(x, old(TraitsOf(x)), lists.where[x])
      ensures forall y :: y in others ==> Relinkable(y) && y.next == old(y.next)
    {
      hide Valid, Lists.Valid, SlotOf, DueTick;
      Current();
      CascadeKeepsDue(tick, x.due);
      AddTimerElement(x, x.hops + 1);
    }

    /** The loop of __Cascade: walks d along its next links, relinking each entry as it goes. */
    method Relink(first: Entry, local: Entry, ghost d: seq<Entry>)
      requires Valid() && !dispatching && lists.heads == lists.vec
      requires Chain(d, local) && Distinct(d) && first == At(local, d, 0)
      requires local !in lists.Nodes() && local !in d
      requires forall x :: x in d ==> Relinkable(x)
      modifies lists, d`next, d`prev, d`due, d`touch, d`hops, d`plan, lists.Nodes()`next, lists.Nodes()`prev
      ensures Valid() && lists.heads == lists.vec
      ensures lists.where.Keys == old(lists.where.Keys) + set x | x in d
      ensures forall e :: e in old(lists.where) ==> lists.where[e] == old(lists.where)[e]
      ensures forall x :: x in d ==> Relinked(x, old(TraitsOf(x)), lists.where[x])
    {
      hide Valid, Lists.Valid, Relinks, Chain, Distinct, At, Relinkable, Relinked, TraitsOf;
      var pTimer := first;
      ghost var rest := d;
      ghost var todo: set<Entry> := set x | x in d;
      ghost var done: set<Entry> := {};
      while pTimer != local
        invariant pTimer == At(local, rest, 0) && local !in rest
        invariant Chain(rest, local) && Distinct(rest) && forall x :: x in rest <==> x in todo
        invariant Valid() && lists.heads == lists.vec
        invariant lists.where.Keys == old(lists.where.Keys) + done
        invariant forall x :: x in d <==> x in todo || x in done
        invariant forall e :: e in old(lists.where) ==> lists.where[e] == old(lists.where)[e]
        invariant forall x :: x in todo ==> x !in done && Relinkable(x) && TraitsOf(x) == old(TraitsOf(x))
        invariant forall x :: x in done ==> Relinked(x, old(TraitsOf(x)), lists.where[x])
        decreases |rest|
      {
        var pTemp := pTimer.next;
        ChainStep(rest, local);
        Unlinked(pTimer);
        assert pTimer in todo && forall y :: y in lists.Nodes() ==> y in d || y in old(lists.Nodes());
        ghost var others: set<Entry> := todo - {pTimer};
        RelinkOne(pTimer, others);
        todo, done := others, done + {pTimer};
        pTimer := pTemp;
        rest := rest[1..];
      }
      ChainEnd(rest, local);
    }

    /** What is known of the entries of slot k when the cascade reaches it. */
    lemma DueToVisit(k: nat)
      requires Valid() && !dispatching && TV2 <= k < SLOTS
      requires Visits(Width(k), k - FirstSlot(Width(k)), tick)
      ensures forall e :: e in lists.where && lists.where[e] == k ==>
                && tick <= e.due < tick + TWO63 && e.qwNextTime == e.due % TWO64
                && e.plan == e.hops + 1 + Relinks(tick, e.due)
      ensures forall e :: e in lists.where && TV2 <= lists.where[e] < SLOTS ==>
                Width(lists.where[e]) == Width(k) && lists.where[e] != k ==> e.touch != tick
    {
      forall e | e in lists.where && TV2 <= lists.where[e] < SLOTS
        ensures e.touch == tick <==>
          Visits(Width(lists.where[e]), lists.where[e] - FirstSlot(Width(lists.where[e])), tick)
        ensures tick <= e.due < tick + TWO63 && e.qwNextTime == e.due % TWO64
        ensures e.touch == tick ==> e.plan == e.hops + 1 + Relinks(tick, e.due)
      {
        VisitedNow(e, lists.where[e]);
      }
    }

    /** The first step of __Cascade: list_replace_init of slot k onto the local head. */
    method TakeSlot(k: nat, local: Entry) returns (ghost d: seq<Entry>)
      requires Valid() && !dispatching && TV2 <= k < SLOTS && local !in lists.Nodes()
      requires Visits(Width(k), k - FirstSlot(Width(k)), tick)
      modifies lists, local`next, local`prev, lists.Nodes()`next, lists.Nodes()`prev
      ensures Valid() && lists.heads == lists.vec
      ensures Chain(d, local) && Distinct(d) && local.next == At(local, d, 0)
      ensures local !in d && local !in lists.Nodes() && forall x :: x in d ==> Relinkable(x)
      ensures Linked() <= old(Linked()) && forall e :: e in Linked() ==> lists.where[e] == old(lists.where)[e]
      ensures forall e :: e in old(Linked()) ==> (e in Linked() <==> old(lists.where)[e] != k)
      ensures forall e :: e in d <==> e in old(Linked()) && old(lists.where)[e] == k
      ensures lists.heads == old(lists.heads)
    {
      hide Lists.Valid, Chain, Distinct, At, InPlace, Visits, Width, Relinks;
      DueToVisit(k);
      lists.Shape();
      d := lists.Take(k, local);
    }

    /** A slot visited now would hold only elements whose visit falls on this tick. */
    lemma EmptySlot(k: nat)
      requires Valid() && !dispatching && TV2 <= k < SLOTS
      requires Visits(Width(k), k - FirstSlot(Width(k)), tick)
      requires forall e :: e in lists.where && lists.where[e] == k ==> e.touch != tick
      ensures |lists.slots| == SLOTS && lists.slots[k] == []
    {
      lists.Shape();
      lists.Contents(k);
      if lists.slots[k] != [] {
        VisitedNow(lists.slots[k][0], k);
        assert false;
      }
    }

    /** Its two steps together: no element is lost or gets another due tick, and no other element moves. */
    method RelinkSlot(k: nat)
      requires Valid() && !dispatching && TV2 <= k < SLOTS && Visits(Width(k), k - FirstSlot(Width(k)), tick)
      modifies lists, lists.Nodes()`next, lists.Nodes()`prev
      modifies Linked()`due, Linked()`touch, Linked()`hops, Linked()`plan
      ensures Valid() && Linked() == old(Linked()) && lists.heads == old(lists.heads)
      ensures forall e :: e in Linked() ==> e.due == old(e.due) && e.plan == old(e.plan)
      ensures forall e :: e in Linked() && old(lists.where)[e] == k ==>
                e.hops == old(e.hops) + 1 && (lists.where[e] >= TV2 ==> tick < e.touch)
      ensures forall e :: e in Linked() && old(lists.where)[e] != k ==>
                lists.where[e] == old(lists.where)[e] && e.hops == old(e.hops) && e.touch == old(e.touch)
    {
      hide Valid, Lists.Valid, Visits, InPlace, Relinkable, Width, Chain, Distinct, At;
      var local := new TimerElement(0, 0);
      ghost var d := TakeSlot(k, local);
      Relink(local.next, local, d);
    }

    /** __Cascade: each element of a slot is relinked once, which leaves the slot empty. */
    method Cascade(base: nat, idx: nat) returns (r: nat)
      requires Valid() && !dispatching && TV2 <= base && idx < 64 && base + idx < SLOTS
      requires var k := base + idx; Visits(Width(k), k - FirstSlot(Width(k)), tick)
      modifies lists, lists.Nodes()`next, lists.Nodes()`prev
      modifies Linked()`due, Linked()`touch, Linked()`hops, Linked()`plan
      ensures Valid() && Linked() == old(Linked()) && lists.heads == old(lists.heads) && r == idx
      ensures forall e :: e in Linked() ==> e.due == old(e.due) && e.plan == old(e.plan)
      ensures forall e :: e in Linked() && old(lists.where)[e] == base + idx ==>
                e.hops == old(e.hops) + 1 && (lists.where[e] >= TV2 ==> tick < e.touch)
      ensures forall e :: e in Linked() && old(lists.where)[e] != base + idx ==>
                lists.where[e] == old(lists.where)[e] && e.hops == old(e.hops) && e.touch == old(e.touch)
      ensures |lists.slots| == SLOTS && lists.slots[base + idx] == []
    {
      hide Valid, Lists.Valid, Visits, InPlace, Width;
      RelinkSlot(base + idx);
      EmptySlot(base + idx);
      return idx;
    }

    /** After the cascade of a level's slot for this tick, none of that level remains to be visited now. */
    method CascadeLevel(base: nat, idx: nat) returns (r: nat)
      requires Valid() && !dispatching
      requires TV2 <= base && idx < 64 && base + idx < SLOTS && base == FirstSlot(Width(base))
      requires Visits(Width(base), idx, tick)
      modifies lists, lists.Nodes()`next, lists.Nodes()`prev
      modifies Linked()`due, Linked()`touch, Linked()`hops, Linked()`plan
      ensures Valid() && r == idx
      ensures Linked() == old(Linked()) && lists.heads == old(lists.heads)
      ensures forall e :: e in Linked() ==> e.due == old(e.due) && e.plan == old(e.plan)
      ensures Cold(Width(base)) && forall h :: IsCoarse(h) && old(Cold(h)) ==> Cold(h)
    {
      hide Valid, Lists.Valid, IsCoarse, Visits, InPlace;
      DueToVisit(base + idx);
      SameWidth(base, idx);
      r := Cascade(base, idx);
    }

    /**
     * The cascades of one tick of Run: tv3 only when tv2 has come round to its slot 0, and so on.  After
     * them nothing on a coarse level is to be visited at this tick.
     */
    method CascadeAll(index: nat)
      requires Valid() && !dispatching && index == qwLastTime % 256
      modifies lists, lists.Nodes()`next, lists.Nodes()`prev, Linked()`due, Linked()`touch, Linked()`hops, Linked()`plan
      ensures Valid() && lists.heads == lists.vec
      ensures Linked() == old(Linked())
      ensures forall e :: e in Linked() ==> e.due == old(e.due) && e.plan == old(e.plan)
      ensures Cold(G2) && Cold(G3) && Cold(G4) && Cold(G5)
    {
      CascadeChain(tick);
      if index == 0 {
        var r := CascadeLevel(TV2, qwLastTime / 0x100 % 64);
        if r == 0 {
          r := CascadeLevel(TV3, qwLastTime / 0x4000 % 64);
          if r == 0 {
            r := CascadeLevel(TV4, qwLastTime / 0x10_0000 % 64);
            if r == 0 {
              r := CascadeLevel(TV5, qwLastTime / 0x400_0000 % 64);
            }
          }
        }
      }
    }

    lemma IdleHeads()
      requires Valid() && !dispatching
      ensures lists.heads == lists.vec
    {
    }

    /** After the cascades, what is not in the tv1 slot of this tick is due later. */
    ghost predicate Settled(e: Entry, k: nat)
      reads this, e`due, e`touch, e`qwNextTime, e`hops, e`plan
    {
      && OnPlan(e, k)
      && (if k == qwLastTime % 256 then e.due == tick else tick < e.due)
      && (k != qwLastTime % 256 ==>
            Placed(k, e.due, e.touch, tick + 1) && (k >= TV2 ==> e.qwNextTime == e.due % TWO64))
    }

    lemma Settles(e: Entry, k: nat)
      requires InPlace(e, k) && !dispatching && k < SLOTS && qwLastTime == tick % TWO64
      requires k >= TV2 ==> e.touch != tick
      ensures Settled(e, k)
    {
      LowBits(tick);
      if k < TV2 {
        SameResidue(tick, e.due);
      }
    }

    lemma AllSettle()
      requires Valid() && !dispatching && Cold(G2) && Cold(G3) && Cold(G4) && Cold(G5)
      ensures forall e :: e in lists.where ==> lists.where[e] < SLOTS && Settled(e, lists.where[e])
    {
      hide Settled, InPlace;
      lists.Contents(0);
      forall e | e in lists.where
        ensures Settled(e, lists.where[e])
      {
        Settles(e, lists.where[e]);
      }
    }

    /** Lines of Run before the inner loop: cascades, then the current slot moves to the work list. */
    method BeginTick(work: Entry)
      requires Valid() && !dispatching && work !in lists.Nodes()
      modifies `dispatching, lists, work`next, work`prev
      modifies lists.Nodes()`next, lists.Nodes()`prev, Linked()`due, Linked()`touch, Linked()`hops, Linked()`plan
      ensures Valid() && dispatching && lists.heads == lists.vec + [work]
      ensures Linked() == old(Linked())
      ensures forall e :: e in Linked() ==> e.due == old(e.due) && e.plan == old(e.plan)
    {
      hide Lists.Valid, Settled, InPlace;
      IdleHeads();
      var index := qwLastTime % 256;
      CascadeAll(index);
      AllSettle();
      DetachCurrent(index, work);
    }

    method DetachCurrent(index: nat, work: Entry)
      requires Valid() && !dispatching && lists.heads == lists.vec && work !in lists.Nodes()
      requires index == qwLastTime % 256
      requires forall e :: e in lists.where ==> lists.where[e] < SLOTS && Settled(e, lists.where[e])
      modifies `dispatching, lists, work`next, work`prev
      modifies lists.Nodes()`next, lists.Nodes()`prev
      ensures Valid() && dispatching && lists.heads == lists.vec + [work]
      ensures Linked() == old(Linked())
    {
      hide Lists.Valid, Placed;
      lists.Shape();
      lists.Detach(index, work);
      dispatching := true;
    }

    /** The inner loop of Run takes the first element off the work list; it is due now. */
    method TakeNext(work: Entry) returns (timer: Entry)
      requires Valid() && dispatching && lists.heads == lists.vec + [work] && !ListEmpty(work)
      modifies lists, lists.Nodes()`next, lists.Nodes()`prev
      ensures Valid() && lists.heads == old(lists.heads)
      ensures timer in old(Linked()) && timer !in lists.Nodes() && timer.next == null
      ensures Linked() == old(Linked()) - {timer}
      ensures timer.due == tick && timer.hops == timer.plan
      ensures |lists.Local()| < |old(lists.Local())|
    {
      hide Lists.Valid, Placed;
      lists.Shape();
      lists.LocalList();
      lists.HeadsUnlinked();
      timer := work.next;
      lists.Unlink(timer, 0);
    }

    /** When the work list has run empty the tick is over; everything still linked is due later. */
    method EndTick(work: Entry)
      requires Valid() && dispatching && lists.heads == lists.vec + [work] && ListEmpty(work)
      modifies this, lists`heads, lists`slots
      ensures Valid() && !dispatching && lists.heads == lists.vec
      ensures tick == old(tick) + 1 && Linked() == old(Linked())
    {
      hide Lists.Valid, Placed;
      lists.Shape();
      lists.LocalList();
      lists.NothingLocal();
      lists.Forget();
      qwLastTime := (qwLastTime + 1) % TWO64;
      tick := tick + 1;
      dispatching := false;
    }

    /** No linked element is overdue; during dispatch, only those on the work list are due now. */
    lemma NothingOverdue()
      requires Valid()
      ensures forall e :: e in Linked() ==> tick <= e.due
      ensures dispatching && lists.slots[SLOTS] == [] ==> forall e :: e in Linked() ==> tick < e.due
    {
      lists.Contents(0);
      if dispatching && lists.slots[SLOTS] == [] { lists.NothingLocal(); }
      forall e | e in lists.where
        ensures if lists.where[e] == SLOTS then e.due == tick else Frontier() <= e.due
      {
        assert InPlace(e, lists.where[e]);
      }
    }
  }

  lemma SameResidue(tick: nat, due: nat)
    requires tick <= due < tick + 256
    ensures due % 256 == tick % 256 <==> due == tick
  {
  }

  lemma SameWidth(base: nat, idx: nat)
    requires TV2 <= base && idx < 64 && base + idx < SLOTS && base == FirstSlot(Width(base))
    ensures Width(base + idx) == Width(base)
  {
  }

  lemma SlotRange(next: u64, last: u64)
    ensures SlotOf(next, last) < SLOTS
  {
  }

  lemma IsSlotOf(next: u64, last: u64, k: nat)
    requires var idx := Ahead(next, last);
             k == if idx < G2 then next % 256
             else if idx < G3 then TV2 + next / G2 % 64
             else if idx < G4 then TV3 + next / G3 % 64
             else if idx < G5 then TV4 + next / G4 % 64
             else if idx >= TWO63 then last % 256
             else TV5 + (if idx > CLAMP then (CLAMP + last) % TWO64 else next) / G5 % 64
    ensures k == SlotOf(next, last)
  {
  }
}