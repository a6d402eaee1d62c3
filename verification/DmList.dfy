// The circular doubly linked lists of include/dmlist.h, each operation proved against an
// operation on the sequence of entries the list holds.

module DmList {
  import opened TimerElements

  type Entry = TimerElement

  ghost predicate Distinct(s: seq<Entry>) {
    forall i, j :: 0 <= i < j < |s| ==> s[i] != s[j]
  }

  /** The entry at position i of the ring; the head is both before the first and after the last. */
  ghost function At(head: Entry, s: seq<Entry>, i: int): Entry {
    if 0 <= i < |s| then s[i] else head
  }

  /** The list headed by `head` holds exactly the entries s, in this order, linked both ways. */
  ghost predicate Ring(head: Entry, s: seq<Entry>)
    reads head`next, head`prev, s`next, s`prev
  {
    && head !in s
    && Distinct(s)
    && head.next == At(head, s, 0)
    && head.prev == At(head, s, |s| - 1)
    && (forall i {:trigger s[i].next} :: 0 <= i < |s| ==> s[i].next == At(head, s, i + 1))
    && (forall i {:trigger s[i].prev} :: 0 <= i < |s| ==> s[i].prev == At(head, s, i - 1))
  }

  /** Following next from s[0] visits exactly s and then reaches `end`. */
  ghost predicate Chain(s: seq<Entry>, end: Entry)
    reads s`next
  {
    forall i {:trigger s[i].next} :: 0 <= i < |s| ==> s[i].next == At(end, s, i + 1)
  }

  method InitListHead(list: Entry)
    modifies list`next, list`prev
    ensures Ring(list, [])
  {
    list.next := list;
    list.prev := list;
  }

  // __list_add
  method LinkBetween(newone: Entry, prev: Entry, next: Entry)
    modifies next`prev, newone`next, newone`prev, prev`next
    ensures newone.prev == prev
    ensures prev.next == newone
    ensures newone != prev ==> newone.next == next
    ensures newone != next ==> next.prev == newone
  {
    next.prev := newone;
    newone.next := next;
    newone.prev := prev;
    prev.next := newone;
  }

  method ListAdd(newone: Entry, head: Entry, ghost s: seq<Entry>)
    requires Ring(head, s) && newone != head && newone !in s
    modifies newone`next, newone`prev, head`next, head.next`prev
    ensures Ring(head, [newone] + s)
  {
    LinkBetween(newone, head, head.next);
  }

  method ListAddTail(newone: Entry, head: Entry, ghost s: seq<Entry>)
    requires Ring(head, s) && newone != head && newone !in s
    modifies newone`next, newone`prev, head`prev, head.prev`next
    ensures Ring(head, s + [newone])
  {
    LinkBetween(newone, head.prev, head);
  }

  ghost function Without<T>(s: seq<T>, k: nat): (r: seq<T>)
    requires k < |s|
    ensures |r| == |s| - 1
    ensures forall i :: 0 <= i < |r| ==> r[i] == if i < k then s[i] else s[i + 1]
  {
    s[..k] + s[k + 1..]
  }

  lemma AtWithout(head: Entry, s: seq<Entry>, k: nat, i: int)
    requires k < |s|
    ensures At(head, Without(s, k), i) == At(head, s, if i < k then i else i + 1)
  {
  }

  /** The neighbours of position k are linked to each other and the others are not touched. */
  lemma NodesApart(head: Entry, s: seq<Entry>, k: nat)
    requires head !in s && Distinct(s) && k < |s|
    ensures forall i :: 0 <= i < |s| && i != k - 1 ==> s[i] != At(head, s, k - 1)
    ensures forall i :: 0 <= i < |s| && i != k + 1 ==> s[i] != At(head, s, k + 1)
    ensures head !in Without(s, k) && Distinct(Without(s, k))
  {
  }

  // list_del, without the poison values it leaves in entry
  method ListDel(entry: Entry, ghost head: Entry, ghost s: seq<Entry>, ghost k: nat)
    requires Ring(head, s) && k < |s| && s[k] == entry
    modifies entry.prev`next, entry.next`prev
    ensures Ring(head, Without(s, k))
  {
    ghost var t := Without(s, k);
    NodesApart(head, s, k);
    hide Distinct, Without;
    ghost var before, after := At(head, s, k - 1), At(head, s, k + 1);
    assert entry.prev == before && entry.next == after;
    entry.next.prev := entry.prev;
    entry.prev.next := entry.next;
    forall i {:trigger t[i].next} | 0 <= i < |t|
      ensures t[i].next == At(head, t, i + 1)
    {
      AtWithout(head, s, k, i + 1);
    }
    forall i {:trigger t[i].prev} | 0 <= i < |t|
      ensures t[i].prev == At(head, t, i - 1)
    {
      AtWithout(head, s, k, i - 1);
    }
  }

  /** list_del, after which the links of the entry are cleared. */
  method ListDelClear(entry: Entry, ghost head: Entry, ghost s: seq<Entry>, ghost k: nat)
    requires Ring(head, s) && k < |s| && s[k] == entry
    modifies entry`next, entry`prev, At(head, s, k - 1)`next, At(head, s, k + 1)`prev
    ensures Ring(head, Without(s, k)) && entry.next == null && entry.prev == null
  {
    ListDel(entry, head, s, k);
    entry.next := null;
    entry.prev := null;
  }

  predicate ListEmpty(head: Entry)
    reads head`next
  {
    head.next == head
  }

  predicate ListIsSingular(head: Entry)
    reads head`next, head`prev
  {
    !ListEmpty(head) && head.next == head.prev
  }

  /** What the two tests tell about the entries held. */
  lemma SizeTests(head: Entry, s: seq<Entry>)
    requires Ring(head, s)
    ensures ListEmpty(head) <==> s == []
    ensures ListIsSingular(head) <==> |s| == 1
  {
    if |s| >= 1 { assert s[0] in s; assert s[|s| - 1] in s; }
  }

  method ListReplace(old_: Entry, newone: Entry, ghost s: seq<Entry>)
    requires Ring(old_, s) && newone != old_ && newone !in s
    modifies newone`next, newone`prev, old_.next`prev, old_.prev`next
    ensures Ring(newone, s)
  {
    newone.next := old_.next;
    newone.next.prev := newone;
    newone.prev := old_.prev;
    newone.prev.next := newone;
  }

  /** Moves the whole list, the empty one included, to a new head. */
  method ListReplaceInit(old_: Entry, newone: Entry, ghost s: seq<Entry>)
    requires Ring(old_, s) && newone != old_ && newone !in s
    modifies newone`next, newone`prev, old_`next, old_`prev, old_.next`prev, old_.prev`next
    ensures Ring(newone, s) && Ring(old_, [])
  {
    ListReplace(old_, newone, s);
    InitListHead(old_);
  }

  // __list_splice
  method SpliceBetween(list: Entry, prev: Entry, next: Entry)
    requires list.next != null && list.prev != null
    modifies list.next`prev, prev`next, list.prev`next, next`prev
    ensures old(list.next).prev == if old(list.next) == next then old(list.prev) else prev
    ensures prev.next == if old(list.prev) == prev then next else old(list.next)
    ensures old(list.prev).next == next
    ensures next.prev == old(list.prev)
  {
    var first, last := list.next, list.prev;
    first.prev := prev;
    prev.next := first;
    last.next := next;
    next.prev := last;
  }

  ghost predicate Apart(list: Entry, ls: seq<Entry>, head: Entry, hs: seq<Entry>) {
    && list != head && list !in hs && head !in ls
    && forall i, j :: 0 <= i < |ls| && 0 <= j < |hs| ==> ls[i] != hs[j]
  }

  method ListSplice(list: Entry, head: Entry, ghost ls: seq<Entry>, ghost hs: seq<Entry>)
    requires Ring(list, ls) && Ring(head, hs) && Apart(list, ls, head, hs)
    modifies list.next`prev, list.prev`next, head`next, head.next`prev
    ensures Ring(head, ls + hs)
  {
    SizeTests(list, ls);
    ghost var r := ls + hs;
    if !ListEmpty(list) {
      assert list.next == ls[0] && list.prev == ls[|ls| - 1];
      SpliceBetween(list, head, head.next);
      assert forall i {:trigger r[i].next} :: 0 <= i < |r| ==> r[i].next == At(head, r, i + 1);
      assert forall i {:trigger r[i].prev} :: 0 <= i < |r| ==> r[i].prev == At(head, r, i - 1);
    } else {
      assert r == hs;
    }
  }

  method ListSpliceTail(list: Entry, head: Entry, ghost ls: seq<Entry>, ghost hs: seq<Entry>)
    requires Ring(list, ls) && Ring(head, hs) && Apart(list, ls, head, hs)
    modifies list.next`prev, list.prev`next, head`prev, head.prev`next
    ensures Ring(head, hs + ls)
  {
    SizeTests(list, ls);
    ghost var r := hs + ls;
    if !ListEmpty(list) {
      assert list.next == ls[0] && list.prev == ls[|ls| - 1];
      SpliceBetween(list, head.prev, head);
      assert forall i {:trigger r[i].next} :: 0 <= i < |r| ==> r[i].next == At(head, r, i + 1);
      assert forall i {:trigger r[i].prev} :: 0 <= i < |r| ==> r[i].prev == At(head, r, i - 1);
    } else {
      assert r == hs;
    }
  }

  lemma RingParts(head: Entry, a: seq<Entry>, b: seq<Entry>)
    requires Ring(head, a + b)
    ensures Distinct(a) && Distinct(b) && head !in a && head !in b
    ensures forall i, j :: 0 <= i < |a| && 0 <= j < |b| ==> a[i] != b[j]
    ensures head.next == At(head, a + b, 0)
    ensures forall i {:trigger a[i].next} :: 0 <= i < |a| - 1 ==> a[i].next == a[i + 1]
    ensures forall i {:trigger a[i].prev} :: 0 <= i < |a| ==> a[i].prev == At(head, a, i - 1)
    ensures forall i {:trigger b[i].next} :: 0 <= i < |b| ==> b[i].next == At(head, b, i + 1)
    ensures forall i {:trigger b[i].prev} :: 1 <= i < |b| ==> b[i].prev == b[i - 1]
    ensures a != [] ==> a[|a| - 1].next == At(head, b, 0)
    ensures b != [] ==> head.prev == b[|b| - 1]
  {
    var s := a + b;
    assert forall i :: 0 <= i < |a| ==> s[i] == a[i];
    assert forall j :: 0 <= j < |b| ==> s[|a| + j] == b[j];
  }

  // __list_cut_position
  method CutAfter(list: Entry, head: Entry, entry: Entry, ghost a: seq<Entry>, ghost b: seq<Entry>)
    requires Ring(head, a + b) && list != head && list !in a + b
    requires a != [] && entry == a[|a| - 1]
    modifies list`next, list`prev, head`next, head.next`prev, entry`next, At(head, b, 0)`prev
    ensures Ring(list, a) && Ring(head, b)
  {
    RingParts(head, a, b);
    assert list !in a && list !in b;
    var newFirst := entry.next;
    assert head.next == a[0];
    list.next := head.next;
    list.next.prev := list;
    list.prev := entry;
    entry.next := list;
    head.next := newFirst;
    newFirst.prev := head;
  }

  /**
   * Cuts `head` after `entry`, the last entry of the initial part a, or the head itself when a is
   * empty.  On an empty list nothing is written, not even `list`.
   */
  method ListCutPosition(list: Entry, head: Entry, entry: Entry, ghost a: seq<Entry>, ghost b: seq<Entry>)
    requires Ring(head, a + b) && list != head && list !in a + b
    requires entry == if a == [] then head else a[|a| - 1]
    modifies list`next, list`prev, head`next, head.next`prev, entry`next, At(head, b, 0)`prev
    ensures a + b == [] ==> list.next == old(list.next) && list.prev == old(list.prev)
    ensures a + b != [] ==> Ring(list, a)
    ensures Ring(head, b)
  {
    SizeTests(head, a + b);
    if ListEmpty(head) {
      assert b == a + b;
      return;
    }
    if ListIsSingular(head) && head.next != entry && head != entry {
      return;
    }
    if entry == head {
      assert a == [] && b == a + b;
      InitListHead(list);
    } else {
      CutAfter(list, head, entry, a, b);
    }
  }

  /** Cutting a list anywhere and splicing the piece back restores it. */
  method CutThenSplice(list: Entry, head: Entry, entry: Entry, ghost a: seq<Entry>, ghost b: seq<Entry>)
    requires Ring(head, a + b) && list != head && list !in a + b && Ring(list, [])
    requires entry == if a == [] then head else a[|a| - 1]
    modifies {list, head}`next, {list, head}`prev, a`next, a`prev, b`next, b`prev
    ensures Ring(head, a + b)
  {
    RingParts(head, a, b);
    assert a != [] ==> a[0] in a && a[|a| - 1] in a;
    assert b != [] ==> b[0] in b;
    assert (a + b) != [] ==> At(head, a + b, 0) == if a != [] then a[0] else b[0];
    ListCutPosition(list, head, entry, a, b);
    assert Apart(list, a, head, b);
    ListSplice(list, head, a, b);
  }
}
