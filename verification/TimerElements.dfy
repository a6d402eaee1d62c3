// The timer record of include/dmtimersink.h together with the memory that surrounds it.

module TimerElements {

  const TWO32: int := 0x1_0000_0000
  const TWO63: int := 0x8000_0000_0000_0000
  const TWO64: int := 0x1_0000_0000_0000_0000

  type u32 = x: int | 0 <= x < TWO32
  type u64 = x: int | 0 <= x < TWO64

  /**
   * One pool cell: the CDMTimerElement with its embedded list_head, and of the SRapidData header
   * around it the part that never changes, the number of its pool and its position there.  The casts
   * between cell, element and list_head are identities here.  A list head (a slot of tv1..tv5 or a
   * local list) is a TimerElement of which only the links are used.
   */
  class TimerElement {
    // SRapidData
    const dwIndex: nat
    const position: nat

    // m_stEntry
    var next: TimerElement?
    var prev: TimerElement?

    // CDMTimerElement
    var qwNextTime: u64
    var qwCD: u64
    var qwID: u64
    var sink: nat
    var erased: bool
    var exact: bool
    var cron: bool

    // which incarnation of the cell this is, when the wheel will dispatch it, and when it will
    // next be touched by the wheel
    ghost var uid: nat
    ghost var due: nat
    ghost var touch: nat
    // how often a cascade has relinked it since it was added, and how often in all it will be
    ghost var hops: nat
    ghost var plan: nat

    constructor (index: nat, pos: nat)
      ensures dwIndex == index && position == pos && IsReset()
      ensures next == prev == null && qwNextTime == qwCD == qwID == 0 && sink == 0 && !erased && !exact && !cron
    {
      dwIndex, position := index, pos;
      next, prev := null, null;
      qwNextTime, qwCD, qwID, sink := 0, 0, 0, 0;
      erased, exact, cron := false, false, false;
      uid, due, touch, hops, plan := 0, 0, 0, 0, 0;
    }

    predicate IsReset()
      reads `next, `prev, `qwNextTime, `qwCD, `qwID, `sink, `erased, `exact, `cron
    {
      && next == null && prev == null
      && qwNextTime == 0 && qwCD == 0 && qwID == 0 && sink == 0
      && !erased && !exact && !cron
    }

    method Reset()
      modifies `next, `prev, `qwNextTime, `qwCD, `qwID, `sink, `erased, `exact, `cron
      ensures IsReset()
      ensures next == prev == null && qwNextTime == qwCD == qwID == 0 && sink == 0 && !erased && !exact && !cron
    {
      next, prev := null, null;
      qwNextTime, qwCD, qwID, sink := 0, 0, 0, 0;
      erased, exact, cron := false, false, false;
    }

    /** The implicit member-wise assignment; the links come along. */
    method Assign(o: TimerElement)
      modifies `next, `prev, `qwNextTime, `qwCD, `qwID, `sink, `erased, `exact, `cron
      ensures next == old(o.next) && prev == old(o.prev)
      ensures qwNextTime == old(o.qwNextTime) && qwCD == old(o.qwCD) && qwID == old(o.qwID)
      ensures sink == old(o.sink) && erased == old(o.erased) && exact == old(o.exact) && cron == old(o.cron)
    {
      next, prev := o.next, o.prev;
      qwNextTime, qwCD, qwID, sink := o.qwNextTime, o.qwCD, o.qwID, o.sink;
      erased, exact, cron := o.erased, o.exact, o.cron;
    }

    /** Lazy kill: only the flag is set; the dispatch loop releases the element later. */
    method Kill()
      modifies `erased
      ensures erased
    {
      erased := true;
    }
  }
}
