// The list heads of tv1..tv5 and of the local list of __Cascade and Run, with the elements they hold.

module TimerLists {
  import opened TimerElements
  import opened DmList
  import opened Wheel

  /** where names, for every linked entry, the list that holds it. */
  ghost predicate Table(heads: seq<Entry>, slots: seq<seq<Entry>>, where: map<Entry, nat>) {
    && |heads| == |slots| && Distinct(heads)
    && (forall k, i :: 0 <= k < |slots| && 0 <= i < |slots[k]| ==>
          slots[k][i] in where && where[slots[k][i]] == k)
    && (forall e :: e in where ==> where[e] < |slots| && e in slots[where[e]] && e !in heads)
  }

  /** Every position of a ring is a node of the list; the head's links name its ends. */
  lemma RingEnds(head: Entry, s: seq<Entry>)
    requires Ring(head, s)
    ensures head.next == At(head, s, 0) && head.prev == At(head, s, |s| - 1)
    ensures forall i :: At(head, s, i) == head || At(head, s, i) in s
    ensures Distinct(s)
  {
  }

  /** The nodes of list k are in no other list. */
  lemma TableApart(heads: seq<Entry>, slots: seq<seq<Entry>>, where: map<Entry, nat>, k: nat)
    requires Table(heads, slots, where) && k < |heads|
    ensures heads[k] in heads && forall x :: x in slots[k] ==> x in where
    ensures forall j :: 0 <= j < |heads| && j != k ==> heads[k] != heads[j] && heads[k] !in slots[j]
    ensures forall x, j :: x in slots[k] && 0 <= j < |heads| && j != k ==> x != heads[j] && x !in slots[j]
  {
  }

  lemma Unlinked(heads: seq<Entry>, slots: seq<seq<Entry>>, where: map<Entry, nat>, e: Entry)
    requires Table(heads, slots, where) && e !in heads && e !in where
    ensures forall j :: 0 <= j < |heads| ==> e != heads[j] && e !in slots[j]
  {
  }

  lemma InRange(heads: seq<Entry>, slots: seq<seq<Entry>>, where: map<Entry, nat>, e: Entry)
    requires Table(heads, slots, where) && e in where
    ensures where[e] < |heads| && e in slots[where[e]]
  {
  }

  lemma TableRemove(heads: seq<Entry>, slots: seq<seq<Entry>>, where: map<Entry, nat>, k: nat, i: nat)
    requires Table(heads, slots, where) && k < |heads| && i < |slots[k]| && Distinct(slots[k])
    ensures Table(heads, slots[k := Without(slots[k], i)], where - {slots[k][i]})
  {
    var s, w, e := slots[k := Without(slots[k], i)], where - {slots[k][i]}, slots[k][i];
    forall x | x in w
      ensures w[x] < |s| && x in s[w[x]] && x !in heads
    {
      if w[x] == k {
        var j :| 0 <= j < |slots[k]| && slots[k][j] == x;
        assert s[k][if j < i then j else j - 1] == x;
      }
    }
    forall j, l | 0 <= j < |s| && 0 <= l < |s[j]|
      ensures s[j][l] in w && w[s[j][l]] == j
    {
      if j == k { assert s[k][l] == slots[k][if l < i then l else l + 1]; }
    }
  }

  function Moved(where: map<Entry, nat>, k: nat): (w: map<Entry, nat>)
    ensures w.Keys == where.Keys
    ensures forall e :: e in w ==> w[e] == if where[e] == k then SLOTS else where[e]
  {
    map e | e in where :: if where[e] == k then SLOTS else where[e]
  }

  function Outside(where: map<Entry, nat>): (w: map<Entry, nat>)
    ensures forall e :: e in w ==> e in where && where[e] != SLOTS && w[e] == where[e]
    ensures forall e :: e in where ==> (e in w <==> where[e] != SLOTS)
  {
    map e | e in where && where[e] != SLOTS :: where[e]
  }

  lemma TableAbandon(heads: seq<Entry>, slots: seq<seq<Entry>>, where: map<Entry, nat>)
    requires Table(heads, slots, where) && |heads| == SLOTS + 1
    ensures Table(heads[..SLOTS], slots[..SLOTS], Outside(where))
    ensures heads[SLOTS] !in heads[..SLOTS] && heads[SLOTS] !in where
    ensures forall e :: e in slots[SLOTS] ==> e !in heads[..SLOTS] && e !in Outside(where)
  {
  }

  lemma LocalChain(local: Entry, d: seq<Entry>)
    requires Ring(local, d)
    ensures Chain(d, local) && local.next == At(local, d, 0) && Distinct(d) && local !in d
  {
  }

  lemma TableDetach(heads: seq<Entry>, slots: seq<seq<Entry>>, where: map<Entry, nat>, k: nat, local: Entry)
    requires Table(heads, slots, where) && |heads| == SLOTS && k < SLOTS
    requires local !in heads && local !in where
    ensures Table(heads + [local], slots[k := []] + [slots[k]], Moved(where, k))
  {
  }

  lemma TableAdd(heads: seq<Entry>, slots: seq<seq<Entry>>, where: map<Entry, nat>, e: Entry, k: nat)
    requires Table(heads, slots, where) && k < |heads| && e !in heads && e !in where
    ensures Table(heads, slots[k := slots[k] + [e]], where[e := k])
  {
    var s, w := slots[k := slots[k] + [e]], where[e := k];
    forall x | x in w
      ensures w[x] < |s| && x in s[w[x]] && x !in heads
    {
      if x == e { assert s[k][|slots[k]|] == e; }
      else if w[x] == k {
        var i :| 0 <= i < |slots[k]| && slots[k][i] == x;
        assert s[k][i] == x;
      }
    }
  }

  class Lists {
    // tv1..tv5, one after another
    const vec: seq<Entry>

    // all list heads in use: vec, and the local list while there is one
    ghost var heads: seq<Entry>
    ghost var slots: seq<seq<Entry>>
    ghost var where: map<Entry, nat>

    ghost function Nodes(): set<Entry>
      reads this
    {
      (set h | h in heads) + where.Keys
    }

    /** The entries of the local list, if there is one. */
    ghost function Local(): seq<Entry>
      reads this
    {
      if |slots| > SLOTS then slots[SLOTS] else []
    }

    ghost predicate Valid()
      reads this, Nodes()`next, Nodes()`prev
    {
      && |vec| == SLOTS && vec <= heads && |heads| == |slots|
      && Table(heads, slots, where)
      && forall k :: 0 <= k < |heads| ==> Ring(heads[k], slots[k])
    }

    /** All list heads of the wheel, each an empty ring. */
    constructor ()
      ensures Valid() && heads == vec && fresh(heads)
      ensures where == map[] && forall k :: 0 <= k < SLOTS ==> slots[k] == []
    {
      var made: seq<Entry> := [];
      for i := 0 to SLOTS
        invariant |made| == i && Distinct(made)
        invariant forall k :: 0 <= k < i ==> fresh(made[k]) && Ring(made[k], [])
      {
        var h := new TimerElement(0, 0);
        InitListHead(h);
        made := made + [h];
      }
      vec := made;
      heads := made;
      slots := seq(SLOTS, i => []);
      where := map[];
    }

    lemma Shape()
      requires Valid()
      ensures |slots| == |heads| && |vec| == SLOTS && vec <= heads && SLOTS <= |heads|
    {
    }

    /** What list_empty and the next link of the local list head tell. */
    lemma LocalList()
      requires Valid() && |heads| == SLOTS + 1
      ensures ListEmpty(heads[SLOTS]) <==> slots[SLOTS] == []
      ensures slots[SLOTS] != [] ==>
        heads[SLOTS].next == slots[SLOTS][0] && slots[SLOTS][0] in where && where[slots[SLOTS][0]] == SLOTS
    {
      SizeTests(heads[SLOTS], slots[SLOTS]);
    }

    lemma NothingLocal()
      requires Valid() && |heads| == SLOTS + 1 && slots[SLOTS] == []
      ensures forall e :: e in where ==> where[e] < SLOTS
    {
    }

    lemma HeadsUnlinked()
      requires Valid()
      ensures forall e :: e in where ==> e !in heads
    {
    }

    /** list_add_tail on slot k of the wheel. */
    method AddTail(e: Entry, k: nat)
      requires Valid() && k < SLOTS && e !in Nodes()
      modifies `slots, `where, e`next, e`prev, Nodes()`next, Nodes()`prev
      ensures Valid()
      ensures where == old(where)[e := k]
      ensures slots == old(slots)[k := old(slots)[k] + [e]] && Local() == old(Local())
    {
      hide Table, Distinct, Ring, At;
      RingEnds(heads[k], slots[k]);
      TableApart(heads, slots, where, k);
      Unlinked(heads, slots, where, e);
      TableAdd(heads, slots, where, e, k);
      ListAddTail(e, vec[k], slots[k]);
      forall j | 0 <= j < |heads| && j != k
        ensures Ring(heads[j], slots[j])
      {
        assert old(Ring(heads[j], slots[j]));
      }
      slots := slots[k := slots[k] + [e]];
      where := where[e := k];
    }

    /** RemoveTimerElement: takes a linked entry, number i of its list, out and clears its links. */
    method Unlink(e: Entry, ghost i: nat)
      requires Valid() && e in where && i < |slots[where[e]]| && slots[where[e]][i] == e
      modifies `slots, `where, Nodes()`next, Nodes()`prev
      ensures Valid() && e.next == null && e.prev == null
      ensures where == old(where) - {e}
      ensures slots == old(slots)[old(where)[e] := Without(old(slots)[old(where)[e]], i)]
    {
      hide Table, Distinct, Ring, At, Without;
      ghost var k := where[e];
      InRange(heads, slots, where, e);
      RingEnds(heads[k], slots[k]);
      TableApart(heads, slots, where, k);
      TableRemove(heads, slots, where, k, i);
      ListDelClear(e, heads[k], slots[k], i);
      forall j | 0 <= j < |heads| && j != k
        ensures Ring(heads[j], slots[j])
      {
        assert old(Ring(heads[j], slots[j]));
      }
      slots := slots[k := Without(slots[k], i)];
      where := where - {e};
    }

    /** list_replace_init of slot k onto the local list head. */
    method Detach(k: nat, local: Entry)
      requires Valid() && |heads| == SLOTS && k < SLOTS && local !in Nodes()
      modifies this, local`next, local`prev, Nodes()`next, Nodes()`prev
      ensures Valid()
      ensures heads == vec + [local]
      ensures slots == old(slots)[k := []] + [old(slots)[k]]
      ensures where == Moved(old(where), k)
    {
      hide Table, Distinct, Ring, At, Moved;
      assert heads == vec;
      RingEnds(heads[k], slots[k]);
      TableApart(heads, slots, where, k);
      Unlinked(heads, slots, where, local);
      TableDetach(heads, slots, where, k, local);
      ListReplaceInit(vec[k], local, slots[k]);
      forall j | 0 <= j < |heads| && j != k
        ensures Ring(heads[j], slots[j])
      {
        assert old(Ring(heads[j], slots[j]));
      }
      heads := vec + [local];
      slots := slots[k := []] + [slots[k]];
      where := Moved(where, k);
      assert heads[SLOTS] == local && slots[SLOTS] == old(slots)[k];
      assert forall j :: 0 <= j < SLOTS ==> heads[j] == vec[j] && Ring(heads[j], slots[j]);
    }

    /** The local list is empty and goes out of scope. */
    ghost method Forget()
      requires Valid() && |heads| == SLOTS + 1 && slots[SLOTS] == []
      modifies `heads, `slots
      ensures Valid() && heads == vec && slots == old(slots)[..SLOTS]
    {
      hide Ring;
      heads := vec;
      slots := slots[..SLOTS];
    }

    /**
     * Detaches slot k onto a local head to relink its entries one by one without unlinking them first: the
     * table lets go of them all, and what remains is the chain of their next links.
     */
    method Take(k: nat, local: Entry) returns (ghost d: seq<Entry>)
      requires Valid() && heads == vec && k < SLOTS && local !in Nodes()
      modifies this, local`next, local`prev, Nodes()`next, Nodes()`prev
      ensures Valid() && heads == vec
      ensures Chain(d, local) && Distinct(d) && local.next == At(local, d, 0)
      ensures local !in d && local !in Nodes() && forall x :: x in d ==> x !in Nodes()
      ensures where.Keys <= old(where.Keys) && forall e :: e in where ==> where[e] == old(where)[e]
      ensures forall e :: e in old(where) ==> (e in where <==> old(where)[e] != k)
      ensures forall e :: e in d <==> e in old(where) && old(where)[e] == k
    {
      hide Valid, Ring, Distinct, Chain, At;
      Shape();
      Contents(k);
      Detach(k, local);
      d := slots[SLOTS];
      Abandon();
    }

    lemma Contents(k: nat)
      requires Valid() && k < SLOTS
      ensures forall e :: e in slots[k] ==> e in where && where[e] == k
      ensures forall e :: e in where && where[e] == k ==> e in slots[k]
      ensures forall e :: e in where ==> where[e] < |heads|
    {
    }

    ghost method Abandon()
      requires Valid() && |heads| == SLOTS + 1
      modifies `heads, `slots, `where
      ensures Valid() && heads == vec && slots == old(slots)[..SLOTS]
      ensures where == Outside(old(where))
      ensures var d, local := old(slots)[SLOTS], old(heads)[SLOTS];
              && Chain(d, local) && local.next == At(local, d, 0) && Distinct(d)
              && local !in d && local !in Nodes()
              && forall x :: x in d ==> x !in Nodes()
    {
      hide Table, Ring, Distinct, Outside;
      assert heads[..SLOTS] == vec;
      ghost var d, local := slots[SLOTS], heads[SLOTS];
      LocalChain(local, d);
      TableAbandon(heads, slots, where);
      heads := vec;
      slots := slots[..SLOTS];
      where := Outside(where);
    }
  }
}
